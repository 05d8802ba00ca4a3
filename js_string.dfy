/**
 * The JavaScript string and number built-ins the core calls, together with
 * the character searches and the ASCII lower-casing their specifications
 * are stated with (the core itself calls no `indexOf`, `lastIndexOf` or
 * `toLowerCase`), on `string`
 * (a sequence of Dafny `char`s, each a Unicode scalar value; the text the
 * core handles is taken to lie in the Basic Multilingual Plane, where one
 * `char` is one UTF-16 code unit of JavaScript's `length`).
 * Case mapping covers ASCII letters only.
 */
module JsString {

  predicate IsAsciiLower(c: char) { 'a' <= c <= 'z' }

  predicate IsAsciiUpper(c: char) { 'A' <= c <= 'Z' }

  /**
   * ASCII lower-casing of one character: upper-case letters go to lower
   * case, every other character is kept. The colour helper writes its hex
   * digits in this form.
   */
  function ToLowerAscii(c: char): (l: char)
    ensures !IsAsciiUpper(l)
    ensures !IsAsciiUpper(c) ==> l == c
    ensures IsAsciiUpper(c) ==> IsAsciiLower(l)
  {
    if IsAsciiUpper(c) then (c as int + 32) as char else c
  }

  /** `c.toUpperCase()` on ASCII: lower-case letters go to upper case, every other character is kept. */
  function ToUpperAscii(c: char): (u: char)
    ensures !IsAsciiLower(u)
    ensures !IsAsciiLower(c) ==> u == c
    ensures IsAsciiLower(c) ==> IsAsciiUpper(u) && ToLowerAscii(u) == c
  {
    if IsAsciiLower(c) then (c as int - 32) as char else c
  }

  /** ASCII lower-casing of a text, character by character. */
  function ToLowerAsciiString(s: string): (r: string)
    ensures |r| == |s|
    ensures forall k :: 0 <= k < |s| ==> r[k] == ToLowerAscii(s[k])
  {
    seq(|s|, k requires 0 <= k < |s| => ToLowerAscii(s[k]))
  }

  /** The first position holding `c`, or -1 when there is none: the search inside `s.replace(c, "")`. */
  function IndexOf(s: string, c: char): (i: int)
    ensures -1 <= i < |s|
    ensures i == -1 <==> c !in s
    ensures 0 <= i ==> s[i] == c && c !in s[..i]
  {
    if s == [] then -1
    else if s[0] == c then 0
    else
      var j := IndexOf(s[1..], c);
      assert s == [s[0]] + s[1..];
      if j == -1 then -1
      else
        assert s[..j + 1] == [s[0]] + s[1..][..j];
        j + 1
  }

  /**
   * The last position holding `c`, or -1 when there is none: where the last
   * `/` and the last `.` are, which `split("/").pop()` and the extension
   * pattern depend on.
   */
  function LastIndexOf(s: string, c: char): (i: int)
    ensures -1 <= i < |s|
    ensures i == -1 <==> c !in s
    ensures 0 <= i ==> s[i] == c && c !in s[i + 1..]
  {
    if s == [] then -1
    else if s[|s| - 1] == c then |s| - 1
    else
      var j := LastIndexOf(s[..|s| - 1], c);
      assert s == s[..|s| - 1] + [s[|s| - 1]];
      if j == -1 then -1
      else
        assert s[j + 1..] == s[..|s| - 1][j + 1..] + [s[|s| - 1]];
        j
  }

  /** `s.replace(c, "")` with a one-character string pattern: only the first occurrence of `c` is removed. */
  function RemoveFirst(s: string, c: char): string
  {
    var i := IndexOf(s, c);
    if i < 0 then s else s[..i] + s[i + 1..]
  }

  /**
   * Removing the first `c` takes out exactly one character when there is a
   * `c` and none otherwise, and putting `c` back at its first position gives
   * `s` again.
   */
  lemma RemoveFirstSpec(s: string, c: char)
    ensures c !in s ==> RemoveFirst(s, c) == s
    ensures c in s ==> |RemoveFirst(s, c)| == |s| - 1
    ensures c in s ==> multiset(RemoveFirst(s, c)) + multiset{c} == multiset(s)
    ensures c in s ==> s == RemoveFirst(s, c)[..IndexOf(s, c)] + [c] + RemoveFirst(s, c)[IndexOf(s, c)..]
  {
    var i := IndexOf(s, c);
    if i >= 0 {
      TakeOut(s, i);
    }
  }

  /** Taking out position `i` of `s`: one character fewer, and putting it back restores `s`. */
  lemma TakeOut(s: string, i: int)
    requires 0 <= i < |s|
    ensures |s[..i] + s[i + 1..]| == |s| - 1
    ensures multiset(s[..i] + s[i + 1..]) + multiset{s[i]} == multiset(s)
    ensures s == (s[..i] + s[i + 1..])[..i] + [s[i]] + (s[..i] + s[i + 1..])[i..]
  {
    var head, tail := s[..i], s[i + 1..];
    var r := head + tail;
    assert s == head + [s[i]] + tail;
    assert r[..i] == head;
    assert r[i..] == tail;
  }

  /** A leading `c` is the one removed. */
  lemma RemoveFirstAtStart(s: string, c: char)
    requires s != [] && s[0] == c
    ensures RemoveFirst(s, c) == s[1..]
  {
  }

  /** `s.replace(/x/g, y)` for single characters `x` and `y`. */
  function ReplaceAll(s: string, x: char, y: char): (r: string)
    ensures |r| == |s|
    ensures x != y ==> x !in r
    ensures forall k :: 0 <= k < |s| && s[k] != x ==> r[k] == s[k]
    ensures forall k :: 0 <= k < |s| && s[k] == x ==> r[k] == y
  {
    seq(|s|, k requires 0 <= k < |s| => if s[k] == x then y else s[k])
  }

  /** `parts.join(sep)`. */
  function Join(parts: seq<string>, sep: char): string
  {
    if parts == [] then ""
    else if |parts| == 1 then parts[0]
    else parts[0] + [sep] + Join(parts[1..], sep)
  }

  /**
   * `s.split(sep)` for a one-character separator: the pieces between the
   * separators, in order. There is always at least one piece and no piece
   * holds the separator.
   */
  function Split(s: string, sep: char): (parts: seq<string>)
    ensures |parts| >= 1
    ensures forall k :: 0 <= k < |parts| ==> sep !in parts[k]
    decreases |s|
  {
    var i := IndexOf(s, sep);
    if i < 0 then [s]
    else
      var rest := Split(s[i + 1..], sep);
      assert forall k :: 1 <= k < |rest| + 1 ==> ([s[..i]] + rest)[k] == rest[k - 1];
      [s[..i]] + rest
  }

  /** Joining a first piece in front of at least one more puts a separator between them. */
  lemma JoinCons(head: string, rest: seq<string>, sep: char)
    requires rest != []
    ensures Join([head] + rest, sep) == head + [sep] + Join(rest, sep)
  {
    assert ([head] + rest)[1..] == rest;
  }

  /** The pieces of a split at a first separator: the text before it, then the pieces of the rest. */
  lemma SplitAtFirst(s: string, sep: char)
    requires sep in s
    ensures Split(s, sep) == [s[..IndexOf(s, sep)]] + Split(s[IndexOf(s, sep) + 1..], sep)
    ensures s == s[..IndexOf(s, sep)] + [sep] + s[IndexOf(s, sep) + 1..]
  {
  }

  /** Joining the pieces of a split with the separator gives the text back. */
  lemma {:induction false} SplitJoin(s: string, sep: char)
    ensures Join(Split(s, sep), sep) == s
    decreases |s|
  {
    if sep in s {
      var i := IndexOf(s, sep);
      SplitAtFirst(s, sep);
      SplitJoin(s[i + 1..], sep);
      JoinCons(s[..i], Split(s[i + 1..], sep), sep);
    } else {
      assert Split(s, sep) == [s];
    }
  }

  /** `parts.pop()` on a non-empty array: its last element. */
  function Last<T>(parts: seq<T>): T
    requires parts != []
  {
    parts[|parts| - 1]
  }

  /**
   * `s.padStart(targetLength, fill)` with a one-character fill: `s` preceded
   * by as many `fill` characters as it takes to reach `targetLength`.
   */
  function PadStart(s: string, targetLength: nat, fill: char): (r: string)
    ensures |r| == if |s| < targetLength then targetLength else |s|
    ensures |s| >= targetLength ==> r == s
    ensures forall k :: 0 <= k < |s| ==> r[|r| - |s| + k] == s[k]
    ensures forall k :: 0 <= k < |r| - |s| ==> r[k] == fill
  {
    if |s| < targetLength then seq(targetLength - |s|, _ => fill) + s else s
  }

  predicate IsHexDigit(c: char)
  {
    '0' <= c <= '9' || 'a' <= c <= 'f' || 'A' <= c <= 'F'
  }

  predicate IsLowerHexDigit(c: char)
  {
    '0' <= c <= '9' || 'a' <= c <= 'f'
  }

  predicate AllHexDigits(s: string)
  {
    forall k :: 0 <= k < |s| ==> IsHexDigit(s[k])
  }

  predicate AllLowerHexDigits(s: string)
  {
    forall k :: 0 <= k < |s| ==> IsLowerHexDigit(s[k])
  }

  /** The value of one base-16 digit, either case. */
  function HexDigitValue(c: char): (v: nat)
    requires IsHexDigit(c)
    ensures v < 16
    ensures IsLowerHexDigit(c) <==> ToLowerAscii(c) == c
  {
    if '0' <= c <= '9' then c as int - '0' as int
    else if 'a' <= c <= 'f' then c as int - 'a' as int + 10
    else c as int - 'A' as int + 10
  }

  /** The digit `Number.prototype.toString(16)` writes for a value below 16. */
  function LowerHexDigit(v: nat): (c: char)
    requires v < 16
    ensures IsLowerHexDigit(c) && HexDigitValue(c) == v
  {
    if v < 10 then ('0' as int + v) as char else ('a' as int + v - 10) as char
  }

  /** A digit read and written again comes back in lower case. */
  lemma DigitRoundTrip(c: char)
    requires IsHexDigit(c)
    ensures LowerHexDigit(HexDigitValue(c)) == ToLowerAscii(c)
  {
  }

  /** `parseInt(s, 16)` on a string made only of hex digits: its big-endian base-16 value. */
  function ParseHex(s: string): nat
    requires AllHexDigits(s)
  {
    if s == [] then 0 else 16 * ParseHex(s[..|s| - 1]) + HexDigitValue(s[|s| - 1])
  }

  /** Two hex digits read as one byte: the high digit counts sixteen times. */
  lemma ParseHexPair(s: string)
    requires |s| == 2 && AllHexDigits(s)
    ensures ParseHex(s) == 16 * HexDigitValue(s[0]) + HexDigitValue(s[1])
    ensures ParseHex(s) < 256
  {
    var high := s[..1];
    assert high[..0] == [];
    assert ParseHex(high) == HexDigitValue(s[0]);
    assert s[..|s| - 1] == high;
  }

  /** `n.toString(16)` for a non-negative integer. */
  function ToHexString(n: nat): string
    decreases n
  {
    if n < 16 then [LowerHexDigit(n)] else ToHexString(n / 16) + [LowerHexDigit(n % 16)]
  }

  /**
   * `n.toString(16)` writes lower-case hex digits with no leading zero, one
   * digit exactly when `n` is below 16, and `parseInt(_, 16)` reads them back
   * as `n`.
   */
  lemma {:induction false} ToHexStringSpec(n: nat)
    ensures 1 <= |ToHexString(n)|
    ensures AllLowerHexDigits(ToHexString(n)) && AllHexDigits(ToHexString(n))
    ensures |ToHexString(n)| > 1 ==> ToHexString(n)[0] != '0'
    ensures n < 16 <==> |ToHexString(n)| == 1
    ensures ParseHex(ToHexString(n)) == n
    decreases n
  {
    if n >= 16 {
      ToHexStringSpec(n / 16);
      var high := ToHexString(n / 16);
      var s := ToHexString(n);
      assert s == high + [LowerHexDigit(n % 16)];
      assert s[..|s| - 1] == high;
    }
  }

  /**
   * JavaScript's `a % b` for a positive divisor: the remainder of division
   * truncated toward zero, which takes the sign of `a`, where Dafny's `%`
   * is never negative. The two agree when `a` is not negative, and a
   * negative dividend gives the negated remainder of its magnitude.
   */
  function JsRem(a: int, b: int): (r: int)
    requires b > 0
    ensures 0 <= a ==> 0 <= r < b && r == a % b
    ensures a < 0 ==> -b < r <= 0
    ensures a < 0 ==> r == -JsRem(-a, b)
    decreases if a < 0 then 1 else 0
  {
    if a >= 0 then a % b else -((-a) % b)
  }

}
