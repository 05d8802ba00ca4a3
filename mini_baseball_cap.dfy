/**
 * The small picture-in-picture cap viewer. Its `setCapColor` carries its own
 * copy of `calculateComplementaryColor`, which it never calls: this view has
 * a transparent background, and a colour change only repaints the cap meshes
 * and the name text.
 */
module MiniBaseballCap {
  import opened JsString
  import BaseballCap

  /**
   * The duplicated `calculateComplementaryColor`: the same steps as the main
   * viewer's, written out again.
   */
  function CalculateComplementaryColor(hexColor: string): string
    requires BaseballCap.IsHexColorInput(hexColor)
  {
    var hex := BaseballCap.StripHash(hexColor);
    var r := BaseballCap.Channel(hex, 0);
    var g := BaseballCap.Channel(hex, 1);
    var b := BaseballCap.Channel(hex, 2);
    BaseballCap.EncodeColour(255 - r, 255 - g, 255 - b)
  }

  /** The copy computes the same function as the main viewer's helper. */
  lemma SameAsMainViewer(hexColor: string)
    requires BaseballCap.IsHexColorInput(hexColor)
    ensures CalculateComplementaryColor(hexColor) == BaseballCap.CalculateComplementaryColor(hexColor)
  {
  }

  /**
   * On a six-hex-digit input the copy yields '#' and six lower-case hex
   * digits, each channel being 255 minus the input channel.
   */
  lemma ComplementSpec(hexColor: string)
    requires BaseballCap.IsHexColorInput(hexColor)
    ensures BaseballCap.IsLowerHexColour(CalculateComplementaryColor(hexColor))
    ensures var c, hex := CalculateComplementaryColor(hexColor), BaseballCap.StripHash(hexColor);
      AllHexDigits(c[1..3]) && AllHexDigits(c[3..5]) && AllHexDigits(c[5..7]) &&
      ParseHex(c[1..3]) == 255 - BaseballCap.Channel(hex, 0) &&
      ParseHex(c[3..5]) == 255 - BaseballCap.Channel(hex, 1) &&
      ParseHex(c[5..7]) == 255 - BaseballCap.Channel(hex, 2)
  {
    SameAsMainViewer(hexColor);
    BaseballCap.ComplementSpec(hexColor);
  }

  /** The copy is an involution up to lower-casing, like the original. */
  lemma ComplementIsInvolution(hexColor: string)
    requires BaseballCap.IsHexColorInput(hexColor)
    ensures BaseballCap.IsHexColorInput(CalculateComplementaryColor(hexColor))
    ensures CalculateComplementaryColor(CalculateComplementaryColor(hexColor))
            == "#" + ToLowerAsciiString(BaseballCap.StripHash(hexColor)[..6])
  {
    SameAsMainViewer(hexColor);
    BaseballCap.ComplementIsInvolution(hexColor);
    SameAsMainViewer(CalculateComplementaryColor(hexColor));
  }

  /**
   * The colours of the small viewer that `setCapColor` can touch. The
   * renderer's clear colour is set once, transparent, when the scene is built.
   */
  datatype MiniScene = MiniScene(
    capLoaded: bool,        // `capRef.current` is set
    nameTextLoaded: bool,   // `nameTextMeshRef.current` is set
    capMeshColor: string,   // the material colour of every cap mesh but the letter mesh
    nameTextColor: string,  // the material colour of the name text
    clearColor: string      // the background the renderer clears to
  )

  /**
   * `setCapColor(color)`: without a loaded cap nothing changes; otherwise the
   * cap meshes take `color`, and so does the name text when it exists. The
   * background is never touched: the complement helper is not called.
   */
  function SetCapColor(scene: MiniScene, color: string): (r: MiniScene)
    ensures r.clearColor == scene.clearColor
    ensures r.capLoaded == scene.capLoaded && r.nameTextLoaded == scene.nameTextLoaded
    ensures !scene.capLoaded ==> r == scene
    ensures scene.capLoaded ==> r.capMeshColor == color
    ensures r.nameTextColor == if scene.capLoaded && scene.nameTextLoaded then color else scene.nameTextColor
  {
    if !scene.capLoaded then scene
    else
      var painted := scene.(capMeshColor := color);
      UpdateNameTextColor(painted, color)
  }

  /** `updateNameTextColor(textColor)`: recolours the name text when it exists. */
  function UpdateNameTextColor(scene: MiniScene, textColor: string): (r: MiniScene)
    ensures r.nameTextColor == if scene.nameTextLoaded then textColor else scene.nameTextColor
    ensures r.(nameTextColor := scene.nameTextColor) == scene
  {
    if !scene.nameTextLoaded then scene else scene.(nameTextColor := textColor)
  }

}
