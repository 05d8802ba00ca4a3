/**
 * The add-cap form: the validation schema over its five text fields, the
 * values the form starts from, the submit path that lets only valid data
 * through, and the normaliser that keeps the letter field to one upper-case
 * character.
 */
module AddCapForm {
  import opened Wrappers
  import opened JsString

  /** `CapFormData`: the five fields of the form. */
  datatype CapFormData = CapFormData(name: string, letter: string, color: string, letterColor: string, playlist: string)

  /** One failed schema rule, in the order the schema lists the rules. */
  datatype Issue =
    | NameRequired
    | NameTooLong
    | LetterLength
    | ColorRequired
    | LetterColorRequired
    | PlaylistRequired

  const MaxNameLength: nat := 64

  /** The message the form shows for an issue. */
  function Message(issue: Issue): (m: string)
    ensures m != ""
  {
    match issue
    case NameRequired => "Cap name is required"
    case NameTooLong => "Cap name must be less than 64 characters"
    case LetterLength => "Letter must be exactly 1 character"
    case ColorRequired => "Cap color is required"
    case LetterColorRequired => "Letter color is required"
    case PlaylistRequired => "Playlist is required"
  }

  /** The field an issue is reported under. */
  function FieldOf(issue: Issue): (f: string)
    ensures f in {"name", "letter", "color", "letterColor", "playlist"}
  {
    match issue
    case NameRequired => "name"
    case NameTooLong => "name"
    case LetterLength => "letter"
    case ColorRequired => "color"
    case LetterColorRequired => "letterColor"
    case PlaylistRequired => "playlist"
  }

  /** Whether `data` breaks the rule behind `issue`. */
  predicate Fails(data: CapFormData, issue: Issue)
  {
    match issue
    case NameRequired => |data.name| < 1
    case NameTooLong => |data.name| > MaxNameLength
    case LetterLength => |data.letter| != 1
    case ColorRequired => |data.color| < 1
    case LetterColorRequired => |data.letterColor| < 1
    case PlaylistRequired => |data.playlist| < 1
  }

  /** The schema's field rules, each written as the condition on that field alone. */
  predicate ValidName(name: string) { 1 <= |name| <= MaxNameLength }

  predicate ValidLetter(letter: string) { |letter| == 1 }

  predicate ValidRequired(value: string) { value != "" }

  /** The whole schema: every field rule holds. */
  predicate Valid(data: CapFormData)
  {
    && ValidName(data.name)
    && ValidLetter(data.letter)
    && ValidRequired(data.color)
    && ValidRequired(data.letterColor)
    && ValidRequired(data.playlist)
  }

  /** Every rule of the schema, in the order it lists them. */
  const AllIssues: seq<Issue> :=
    [NameRequired, NameTooLong, LetterLength, ColorRequired, LetterColorRequired, PlaylistRequired]

  /** Every issue is one of the listed rules. */
  lemma AllIssuesListed()
    ensures forall x: Issue :: x in AllIssues
  {
    forall x: Issue ensures x in AllIssues {
      match x
      case NameRequired => assert AllIssues[0] == x;
      case NameTooLong => assert AllIssues[1] == x;
      case LetterLength => assert AllIssues[2] == x;
      case ColorRequired => assert AllIssues[3] == x;
      case LetterColorRequired => assert AllIssues[4] == x;
      case PlaylistRequired => assert AllIssues[5] == x;
    }
  }

  /** The elements of `rules` that `data` breaks, in order. */
  function FailedRules(data: CapFormData, rules: seq<Issue>): (r: seq<Issue>)
    ensures forall x :: x in r <==> x in rules && Fails(data, x)
    ensures (forall i, j :: 0 <= i < j < |rules| ==> rules[i] != rules[j]) ==>
      forall i, j :: 0 <= i < j < |r| ==> r[i] != r[j]
  {
    if rules == [] then []
    else
      var rest := FailedRules(data, rules[1..]);
      if Fails(data, rules[0]) then [rules[0]] + rest else rest
  }

  /**
   * Parsing with `capFormSchema`: every failed rule is reported, one issue
   * per rule, in the order the schema lists them. An issue is in the result
   * exactly when its rule fails, and the result is empty exactly when the
   * data is valid.
   */
  function Validate(data: CapFormData): (issues: seq<Issue>)
    ensures forall x :: x in issues <==> Fails(data, x)
    ensures issues == [] <==> Valid(data)
    ensures forall i, j :: 0 <= i < j < |issues| ==> issues[i] != issues[j]
  {
    AllIssuesListed();
    var issues := FailedRules(data, AllIssues);
    assert issues != [] ==> !Valid(data) by {
      if issues != [] {
        assert issues[0] in issues;
      }
    }
    assert !Valid(data) ==> issues != [] by {
      if !Valid(data) {
        if |data.name| < 1 { assert NameRequired in issues; }
        else if |data.name| > MaxNameLength { assert NameTooLong in issues; }
        else if |data.letter| != 1 { assert LetterLength in issues; }
        else if |data.color| < 1 { assert ColorRequired in issues; }
        else if |data.letterColor| < 1 { assert LetterColorRequired in issues; }
        else { assert PlaylistRequired in issues; }
      }
    }
    issues
  }

  /** A name never breaks both of its rules, so it produces at most one issue. */
  lemma AtMostOneNameIssue(data: CapFormData)
    ensures !(NameRequired in Validate(data) && NameTooLong in Validate(data))
  {
  }

  /**
   * Each field is reported at most once, so the form's one message slot per
   * field shows every issue found.
   */
  lemma OneIssuePerField(data: CapFormData)
    ensures forall x, y :: x in Validate(data) && y in Validate(data) && FieldOf(x) == FieldOf(y) ==> x == y
  {
    forall x, y | x in Validate(data) && y in Validate(data) && FieldOf(x) == FieldOf(y) ensures x == y {
      AtMostOneNameIssue(data);
    }
  }

  /** The name rule's bounds: 64 characters pass and 65 do not, despite the "less than 64" wording. */
  lemma NameBoundary(data: CapFormData)
    ensures |data.name| == 64 ==> NameTooLong !in Validate(data) && NameRequired !in Validate(data)
    ensures |data.name| == 65 ==> Validate(data) != [] && Message(NameTooLong) in IssueMessages(data)
    ensures |data.name| == 0 ==> Message(NameRequired) in IssueMessages(data)
  {
    if |data.name| == 65 {
      assert NameTooLong in Validate(data);
      MessagesOfIssues(data, NameTooLong);
    }
    if |data.name| == 0 {
      assert NameRequired in Validate(data);
      MessagesOfIssues(data, NameRequired);
    }
  }

  /** The messages shown for the issues of `data`, in order. */
  function IssueMessages(data: CapFormData): (ms: seq<string>)
    ensures |ms| == |Validate(data)|
  {
    seq(|Validate(data)|, i requires 0 <= i < |Validate(data)| => Message(Validate(data)[i]))
  }

  /** The message of every issue found is shown. */
  lemma MessagesOfIssues(data: CapFormData, x: Issue)
    requires x in Validate(data)
    ensures Message(x) in IssueMessages(data)
  {
    var i :| 0 <= i < |Validate(data)| && Validate(data)[i] == x;
    assert IssueMessages(data)[i] == Message(x);
  }

  /** A message is shown exactly when it is the message of an issue found. */
  lemma ShownMessagesAreIssues(data: CapFormData)
    ensures forall m :: m in IssueMessages(data) <==> exists x :: x in Validate(data) && m == Message(x)
  {
    var ms := IssueMessages(data);
    forall m | m in ms ensures exists x :: x in Validate(data) && m == Message(x) {
      var i :| 0 <= i < |ms| && ms[i] == m;
      assert Validate(data)[i] in Validate(data);
    }
    forall x | x in Validate(data) ensures Message(x) in ms {
      MessagesOfIssues(data, x);
    }
  }

  /** The default `initialData`. */
  function InitialData(): (d: CapFormData)
    ensures d.color != "" && d.letterColor != "" && d.playlist != ""
  {
    CapFormData("", "", "#000000", "#ffffff", "lofi")
  }

  /** The default values fail on the name and the letter only, both being empty. */
  lemma InitialDataIssues()
    ensures Validate(InitialData()) == [NameRequired, LetterLength]
    ensures !Valid(InitialData())
  {
  }

  /** What a submit does: hand valid data on and reset the form, or show the issues and keep the values. */
  datatype SubmitOutcome =
    | Submitted(payload: CapFormData, formAfter: CapFormData)
    | Blocked(issues: seq<Issue>)

  /**
   * `handleSubmit(onFormSubmit)`: the resolver validates the values; only
   * when there is no issue does `onFormSubmit` pass them to `onSubmit`
   * unchanged and `reset()` the form to its default values.
   */
  function HandleSubmit(values: CapFormData, defaults: CapFormData): (r: SubmitOutcome)
    ensures r.Submitted? <==> Valid(values)
    ensures r.Submitted? ==> r.payload == values && r.formAfter == defaults
    ensures r.Blocked? ==> r.issues != [] && forall x :: x in r.issues <==> Fails(values, x)
  {
    var issues := Validate(values);
    if issues == [] then Submitted(values, defaults) else Blocked(issues)
  }

  /** The data `onSubmit` receives, if any. */
  function SubmittedData(values: CapFormData, defaults: CapFormData): (r: Option<CapFormData>)
    ensures r.Some? ==> Valid(r.value) && r.value == values
    ensures r.None? <==> !Valid(values)
  {
    match HandleSubmit(values, defaults)
    case Submitted(payload, _) => Some(payload)
    case Blocked(_) => None
  }

  /**
   * Submitting the untouched default form is blocked, and a submit that goes
   * through leaves a form that would be blocked again.
   */
  lemma DefaultFormIsBlocked(values: CapFormData)
    ensures HandleSubmit(InitialData(), InitialData()).Blocked?
    ensures HandleSubmit(values, InitialData()).Submitted? ==>
      HandleSubmit(HandleSubmit(values, InitialData()).formAfter, InitialData()).Blocked?
  {
    InitialDataIssues();
  }

  /**
   * The letter normaliser: a non-empty value becomes its first character in
   * upper case; the empty value is left alone. (The effect writes the field
   * only when this differs from the current value, which comes to the same.)
   */
  function NormaliseLetter(letter: string): (r: string)
    ensures letter == "" <==> r == ""
    ensures letter != "" ==> |r| == 1 && r[0] == ToUpperAscii(letter[0]) && !IsAsciiLower(r[0])
  {
    if letter == "" then letter else [ToUpperAscii(letter[0])]
  }

  /** Normalising twice is normalising once: the effect reaches a fixed point after one write. */
  lemma NormaliseIsIdempotent(letter: string)
    ensures NormaliseLetter(NormaliseLetter(letter)) == NormaliseLetter(letter)
  {
  }

  /**
   * A normalised non-empty letter always passes the letter rule; and a
   * single lower-case letter comes out as the matching capital.
   */
  lemma NormalisedLetterIsValid(letter: string)
    ensures letter != "" ==> ValidLetter(NormaliseLetter(letter))
    ensures |letter| == 1 && IsAsciiLower(letter[0]) ==>
      IsAsciiUpper(NormaliseLetter(letter)[0]) && ToLowerAsciiString(NormaliseLetter(letter)) == letter
  {
    if |letter| == 1 && IsAsciiLower(letter[0]) {
      assert ToLowerAsciiString(NormaliseLetter(letter))[0] == letter[0];
    }
  }

}
