/**
 * The complementary background colour of the main cap viewer
 * (`calculateComplementaryColor` inside `setCapColor`): remove the first '#',
 * read three two-digit hex channels, replace each channel x by 255 - x and
 * write the result as '#' and six lower-case hex digits.
 */
module BaseballCap {
  import opened JsString

  /** The text the three `parseInt` calls read: the input without its first '#'. */
  function StripHash(hexColor: string): string
  {
    RemoveFirst(hexColor, '#')
  }

  /** Text whose first six characters are hex digits. */
  predicate HasSixHexDigits(hex: string)
  {
    |hex| >= 6 && AllHexDigits(hex[..6])
  }

  /**
   * Inputs on which each of the three `parseInt(_, 16)` calls reads exactly
   * two hex digits, so none of them yields NaN or a partial value.
   */
  predicate IsHexColorInput(hexColor: string)
  {
    HasSixHexDigits(StripHash(hexColor))
  }

  /** Channel `k` (0 red, 1 green, 2 blue): `parseInt(hex.substring(2k, 2k + 2), 16)`. */
  function Channel(hex: string, k: nat): (v: nat)
    requires HasSixHexDigits(hex) && k < 3
    ensures v < 256
  {
    var pair := hex[2 * k..2 * k + 2];
    assert pair == hex[..6][2 * k..2 * k + 2];
    ParseHexPair(pair);
    ParseHex(pair)
  }

  /** `x.toString(16).padStart(2, "0")` for one channel. */
  function ChannelToHex(x: nat): string
    requires x < 256
  {
    PadStart(ToHexString(x), 2, '0')
  }

  /** The template string `#${r..}${g..}${b..}`. */
  function EncodeColour(r: nat, g: nat, b: nat): string
    requires r < 256 && g < 256 && b < 256
  {
    "#" + ChannelToHex(r) + ChannelToHex(g) + ChannelToHex(b)
  }

  /** The complement of the text left once the '#' is removed: each channel x becomes 255 - x. */
  function ComplementOfHex(hex: string): string
    requires HasSixHexDigits(hex)
  {
    EncodeColour(255 - Channel(hex, 0), 255 - Channel(hex, 1), 255 - Channel(hex, 2))
  }

  /** `calculateComplementaryColor(hexColor)`. */
  function CalculateComplementaryColor(hexColor: string): string
    requires IsHexColorInput(hexColor)
  {
    ComplementOfHex(StripHash(hexColor))
  }

  /** Colours in the output format: '#' and six lower-case hex digits. */
  predicate IsLowerHexColour(c: string)
  {
    |c| == 7 && c[0] == '#' && AllLowerHexDigits(c[1..])
  }

  /** A channel is written as its high and low digit, in lower case, the high one possibly '0'. */
  lemma ChannelToHexDigits(x: nat)
    requires x < 256
    ensures ChannelToHex(x) == [LowerHexDigit(x / 16), LowerHexDigit(x % 16)]
  {
    if x >= 16 {
      assert ToHexString(x / 16) == [LowerHexDigit(x / 16)];
    }
  }

  /** The two digits written for a channel read back as that channel. */
  lemma ChannelToHexParses(x: nat)
    requires x < 256
    ensures |ChannelToHex(x)| == 2 && AllLowerHexDigits(ChannelToHex(x)) && AllHexDigits(ChannelToHex(x))
    ensures ParseHex(ChannelToHex(x)) == x
  {
    ChannelToHexDigits(x);
    ParseHexPair(ChannelToHex(x));
  }

  /** Where the three channel pairs sit in '#' followed by the pairs. */
  lemma ColourLayout(x: string, y: string, z: string)
    requires |x| == 2 && |y| == 2 && |z| == 2
    ensures var c := "#" + x + y + z;
      |c| == 7 && c[0] == '#' && c[1..] == x + y + z && c[1..3] == x && c[3..5] == y && c[5..7] == z
  {
    var c := "#" + x + y + z;
    assert c[1..] == x + y + z;
    assert (x + y + z)[..2] == x;
    assert (x + y + z)[2..4] == y;
    assert (x + y + z)[4..] == z;
  }

  /** Encoding three channels gives '#' and six lower-case digits whose pairs read back as the channels. */
  lemma EncodeColourSpec(r: nat, g: nat, b: nat)
    requires r < 256 && g < 256 && b < 256
    ensures IsLowerHexColour(EncodeColour(r, g, b))
    ensures var c := EncodeColour(r, g, b);
      AllHexDigits(c[1..3]) && AllHexDigits(c[3..5]) && AllHexDigits(c[5..7]) &&
      ParseHex(c[1..3]) == r && ParseHex(c[3..5]) == g && ParseHex(c[5..7]) == b
  {
    var hr, hg, hb := ChannelToHex(r), ChannelToHex(g), ChannelToHex(b);
    ChannelToHexParses(r);
    ChannelToHexParses(g);
    ChannelToHexParses(b);
    ColourLayout(hr, hg, hb);
    var c := EncodeColour(r, g, b);
    forall k | 0 <= k < 6 ensures IsLowerHexDigit(c[1..][k]) {
      if k < 2 { assert c[1..][k] == hr[k]; }
      else if k < 4 { assert c[1..][k] == hg[k - 2]; }
      else { assert c[1..][k] == hb[k - 4]; }
    }
  }

  /**
   * The complement is '#' followed by six lower-case hex digits, and each of
   * its channels is 255 minus the input channel read from positions 0-2, 2-4
   * and 4-6 of the text left once the first '#' is removed.
   */
  lemma ComplementSpec(hexColor: string)
    requires IsHexColorInput(hexColor)
    ensures IsLowerHexColour(CalculateComplementaryColor(hexColor))
    ensures var c, hex := CalculateComplementaryColor(hexColor), StripHash(hexColor);
      AllHexDigits(c[1..3]) && AllHexDigits(c[3..5]) && AllHexDigits(c[5..7]) &&
      ParseHex(c[1..3]) == 255 - Channel(hex, 0) &&
      ParseHex(c[3..5]) == 255 - Channel(hex, 1) &&
      ParseHex(c[5..7]) == 255 - Channel(hex, 2)
  {
    var hex := StripHash(hexColor);
    EncodeColourSpec(255 - Channel(hex, 0), 255 - Channel(hex, 1), 255 - Channel(hex, 2));
  }

  /** Writing back a channel read from two hex digits gives the same digits in lower case. */
  lemma ChannelRoundTrip(t: string)
    requires |t| == 2 && AllHexDigits(t)
    ensures ParseHex(t) < 256
    ensures ChannelToHex(ParseHex(t)) == ToLowerAsciiString(t)
  {
    ParseHexPair(t);
    var hi, lo := HexDigitValue(t[0]), HexDigitValue(t[1]);
    var v := ParseHex(t);
    SplitByte(v, hi, lo);
    ChannelToHexDigits(v);
    DigitRoundTrip(t[0]);
    DigitRoundTrip(t[1]);
    var lower := [ToLowerAscii(t[0]), ToLowerAscii(t[1])];
    assert ChannelToHex(v) == lower by {
      assert LowerHexDigit(v / 16) == lower[0];
      assert LowerHexDigit(v % 16) == lower[1];
    }
    LowerOfPair(t);
  }

  /** Lower-casing two characters, one at a time. */
  lemma LowerOfPair(t: string)
    requires |t| == 2
    ensures ToLowerAsciiString(t) == [ToLowerAscii(t[0]), ToLowerAscii(t[1])]
  {
    var r := ToLowerAsciiString(t);
    assert r[0] == ToLowerAscii(t[0]) && r[1] == ToLowerAscii(t[1]);
  }

  /** A byte made of a high and a low digit divides back into them. */
  lemma SplitByte(v: nat, hi: nat, lo: nat)
    requires hi < 16 && lo < 16 && v == 16 * hi + lo
    ensures v / 16 == hi && v % 16 == lo
  {
  }

  /** Writing back channel `k` gives its two input digits in lower case. */
  lemma ChannelDigits(hex: string, k: nat)
    requires HasSixHexDigits(hex) && k < 3
    ensures ChannelToHex(Channel(hex, k)) == ToLowerAsciiString(hex[..6][2 * k..2 * k + 2])
  {
    var pair := hex[..6][2 * k..2 * k + 2];
    assert hex[2 * k..2 * k + 2] == pair;
    ChannelRoundTrip(pair);
  }

  /** Lower-casing six characters is lower-casing their three pairs. */
  lemma LowerPairs(six: string)
    requires |six| == 6
    ensures ToLowerAsciiString(six) == ToLowerAsciiString(six[0..2]) + ToLowerAsciiString(six[2..4]) + ToLowerAsciiString(six[4..6])
  {
  }

  /** Encoding the channels read from six hex digits writes those digits back in lower case. */
  lemma EncodeChannels(hex: string)
    requires HasSixHexDigits(hex)
    ensures EncodeColour(Channel(hex, 0), Channel(hex, 1), Channel(hex, 2)) == "#" + ToLowerAsciiString(hex[..6])
  {
    ChannelDigits(hex, 0);
    ChannelDigits(hex, 1);
    ChannelDigits(hex, 2);
    LowerPairs(hex[..6]);
  }

  /** A colour in the output format is a valid input whose channels are its three digit pairs. */
  lemma OutputIsInput(c: string)
    requires IsLowerHexColour(c)
    ensures StripHash(c) == c[1..]
    ensures IsHexColorInput(c)
    ensures AllHexDigits(c[1..3]) && AllHexDigits(c[3..5]) && AllHexDigits(c[5..7])
    ensures Channel(StripHash(c), 0) == ParseHex(c[1..3])
    ensures Channel(StripHash(c), 1) == ParseHex(c[3..5])
    ensures Channel(StripHash(c), 2) == ParseHex(c[5..7])
  {
    RemoveFirstAtStart(c, '#');
    var hex := c[1..];
    assert hex[..6] == hex;
    assert hex[0..2] == c[1..3] && hex[2..4] == c[3..5] && hex[4..6] == c[5..7];
  }

  /**
   * The complement of a complement is the input's six channel digits,
   * lower-cased, after a '#': `#2E4A9E` comes back as `#2e4a9e`.
   */
  lemma ComplementIsInvolution(hexColor: string)
    requires IsHexColorInput(hexColor)
    ensures IsHexColorInput(CalculateComplementaryColor(hexColor))
    ensures CalculateComplementaryColor(CalculateComplementaryColor(hexColor))
            == "#" + ToLowerAsciiString(StripHash(hexColor)[..6])
  {
    var hex, c := StripHash(hexColor), CalculateComplementaryColor(hexColor);
    ComplementSpec(hexColor);
    OutputIsInput(c);
    var back := StripHash(c);
    assert Channel(back, 0) == 255 - Channel(hex, 0);
    assert Channel(back, 1) == 255 - Channel(hex, 1);
    assert Channel(back, 2) == 255 - Channel(hex, 2);
    assert CalculateComplementaryColor(c) == EncodeColour(Channel(hex, 0), Channel(hex, 1), Channel(hex, 2));
    EncodeChannels(hex);
  }

  /** A colour already in the output format is its own double complement. */
  lemma NormalisedComplementIsInvolution(hexColor: string)
    requires IsLowerHexColour(hexColor)
    ensures IsHexColorInput(hexColor) && IsHexColorInput(CalculateComplementaryColor(hexColor))
    ensures CalculateComplementaryColor(CalculateComplementaryColor(hexColor)) == hexColor
  {
    OutputIsInput(hexColor);
    ComplementIsInvolution(hexColor);
    LowerDigitsStayLower(hexColor[1..]);
  }

  /** Six lower-case hex digits are their own lower-case form. */
  lemma LowerDigitsStayLower(digits: string)
    requires |digits| == 6 && AllLowerHexDigits(digits)
    ensures ToLowerAsciiString(digits[..6]) == digits
  {
    assert digits[..6] == digits;
    var lower := ToLowerAsciiString(digits);
    forall k | 0 <= k < 6 ensures lower[k] == digits[k] {
      assert IsLowerHexDigit(digits[k]);
    }
  }

  /**
   * Six hex digits are accepted with and without a leading '#', and both
   * spellings have the same complement.
   */
  lemma SixDigitInputs(digits: string)
    requires |digits| == 6 && AllHexDigits(digits)
    ensures IsHexColorInput(digits) && IsHexColorInput("#" + digits)
    ensures CalculateComplementaryColor("#" + digits) == CalculateComplementaryColor(digits)
  {
    assert '#' !in digits by {
      forall k | 0 <= k < |digits| ensures digits[k] != '#' { assert IsHexDigit(digits[k]); }
    }
    RemoveFirstSpec(digits, '#');
    RemoveFirstAtStart("#" + digits, '#');
    assert ("#" + digits)[1..] == digits;
    assert digits[..6] == digits;
  }

  /**
   * Only the first six characters left once the first '#' is removed
   * matter: a later '#' is not removed, and characters after the sixth
   * digit are ignored.
   */
  lemma OnlySixDigitsMatter(a: string, b: string)
    requires IsHexColorInput(a) && IsHexColorInput(b)
    requires StripHash(a)[..6] == StripHash(b)[..6]
    ensures CalculateComplementaryColor(a) == CalculateComplementaryColor(b)
  {
    var ha, hb := StripHash(a), StripHash(b);
    SameChannel(ha, hb, 0);
    SameChannel(ha, hb, 1);
    SameChannel(ha, hb, 2);
    SameComplement(ha, hb);
  }

  /** Texts with the same three channels have the same complement. */
  lemma SameComplement(ha: string, hb: string)
    requires HasSixHexDigits(ha) && HasSixHexDigits(hb)
    requires Channel(ha, 0) == Channel(hb, 0) && Channel(ha, 1) == Channel(hb, 1) && Channel(ha, 2) == Channel(hb, 2)
    ensures ComplementOfHex(ha) == ComplementOfHex(hb)
  {
  }

  /** Texts with the same first six characters have the same channels. */
  lemma SameChannel(ha: string, hb: string, k: nat)
    requires HasSixHexDigits(ha) && HasSixHexDigits(hb) && k < 3
    requires ha[..6] == hb[..6]
    ensures Channel(ha, k) == Channel(hb, k)
  {
    var i := 2 * k;
    assert ha[i] == ha[..6][i] == hb[..6][i] == hb[i];
    assert ha[i + 1] == ha[..6][i + 1] == hb[..6][i + 1] == hb[i + 1];
    assert ha[i..i + 2] == hb[i..i + 2];
  }

  /** The channels of white are all 255. */
  lemma WhiteChannels()
    ensures IsLowerHexColour("#ffffff") && IsHexColorInput("#ffffff")
    ensures var hex := StripHash("#ffffff");
      Channel(hex, 0) == 255 && Channel(hex, 1) == 255 && Channel(hex, 2) == 255
  {
    var white := "#ffffff";
    OutputIsInput(white);
    assert white[1..3] == "ff" && white[3..5] == "ff" && white[5..7] == "ff";
    ParseHexPair("ff");
  }

  /** Three zero channels are written as black. */
  lemma EncodeBlack()
    ensures EncodeColour(0, 0, 0) == "#000000"
  {
    ChannelToHexDigits(0);
    assert ChannelToHex(0) == "00";
  }

  /** The complement of white is black. */
  lemma WhiteToBlack()
    ensures IsHexColorInput("#ffffff")
    ensures CalculateComplementaryColor("#ffffff") == "#000000"
  {
    WhiteChannels();
    EncodeBlack();
  }

  /** The complement of black is white, by the involution. */
  lemma BlackToWhite()
    ensures IsHexColorInput("#000000")
    ensures CalculateComplementaryColor("#000000") == "#ffffff"
  {
    WhiteChannels();
    WhiteToBlack();
    NormalisedComplementIsInvolution("#ffffff");
  }

}
