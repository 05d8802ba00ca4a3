/** The optional value used where the JavaScript code yields `undefined`. */
module Wrappers {

  datatype Option<+T> = None | Some(value: T)

}
