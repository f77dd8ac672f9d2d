/** `ColorToHex`: the `#rrggbb` rendering of a colour (Go's `fmt.Sprintf("#%02x%02x%02x", …)`). */
module Hex {
  import opened Colors
  import opened Wrappers

  /** The digits `%x` prints, lower case. */
  const Digits: string := "0123456789abcdef"

  predicate IsLowerHexDigit(ch: char)
  {
    '0' <= ch <= '9' || 'a' <= ch <= 'f'
  }

  /** The value of one lower-case hexadecimal digit. */
  function DigitValue(ch: char): (n: nat)
    requires IsLowerHexDigit(ch)
    ensures n < 16
  {
    if ch <= '9' then ch as int - '0' as int else ch as int - 'a' as int + 10
  }

  /** The lower-case hexadecimal digit of `n`. */
  function HexDigit(n: nat): (ch: char)
    requires n < 16
    ensures IsLowerHexDigit(ch) && DigitValue(ch) == n
  {
    Digits[n]
  }

  /** `%02x` of an 8-bit value: always exactly two lower-case digits, high digit first. */
  function Hex2(v: uint8): (s: string)
    ensures |s| == 2 && IsLowerHexDigit(s[0]) && IsLowerHexDigit(s[1])
    ensures DigitValue(s[0]) * 16 + DigitValue(s[1]) == v
  {
    [HexDigit(v / 16), HexDigit(v % 16)]
  }

  /**
   * `#` followed by R, G and B as two lower-case hex digits each; alpha is dropped.
   */
  function ColorToHex(c: RGBA): (s: string)
    ensures |s| == 7 && s[0] == '#'
    ensures forall i :: 1 <= i < 7 ==> IsLowerHexDigit(s[i])
    ensures DigitValue(s[1]) * 16 + DigitValue(s[2]) == c.r
    ensures DigitValue(s[3]) * 16 + DigitValue(s[4]) == c.g
    ensures DigitValue(s[5]) * 16 + DigitValue(s[6]) == c.b
  {
    "#" + Hex2(c.r) + Hex2(c.g) + Hex2(c.b)
  }

  /** Reads back the channel of two hex digits. */
  function ParseChannel(hi: char, lo: char): uint8
    requires IsLowerHexDigit(hi) && IsLowerHexDigit(lo)
  {
    DigitValue(hi) * 16 + DigitValue(lo)
  }

  /** The inverse of `ColorToHex`: accepts exactly the strings `#rrggbb` with lower-case digits. */
  function ParseHex(s: string): Option<(uint8, uint8, uint8)>
  {
    if |s| == 7 && s[0] == '#' && forall i :: 1 <= i < 7 ==> IsLowerHexDigit(s[i]) then
      Some((ParseChannel(s[1], s[2]), ParseChannel(s[3], s[4]), ParseChannel(s[5], s[6])))
    else
      None
  }

  /** Parsing a rendered colour gives back its R, G and B channels. */
  lemma ParseColorToHex(c: RGBA)
    ensures ParseHex(ColorToHex(c)) == Some((c.r, c.g, c.b))
  {
  }

  lemma DigitsDetermined(x: char, y: char)
    requires IsLowerHexDigit(x) && IsLowerHexDigit(y)
    requires DigitValue(x) == DigitValue(y)
    ensures x == y
  {
  }

  lemma ChannelDigits(hi: char, lo: char, v: uint8)
    requires IsLowerHexDigit(hi) && IsLowerHexDigit(lo)
    requires DigitValue(hi) * 16 + DigitValue(lo) == v
    ensures Hex2(v) == [hi, lo]
  {
    var s := Hex2(v);
    assert DigitValue(hi) == v / 16 && DigitValue(lo) == v % 16;
    assert DigitValue(s[0]) == v / 16 && DigitValue(s[1]) == v % 16;
    DigitsDetermined(s[0], hi);
    DigitsDetermined(s[1], lo);
  }

  /** Every string the parser accepts is the rendering of the colour it parses to, whatever its alpha. */
  lemma ColorToHexOfParse(s: string, r: uint8, g: uint8, b: uint8, a: uint8)
    requires ParseHex(s) == Some((r, g, b))
    ensures ColorToHex(RGBA(r, g, b, a)) == s
  {
    ChannelDigits(s[1], s[2], r);
    ChannelDigits(s[3], s[4], g);
    ChannelDigits(s[5], s[6], b);
    assert s == "#" + [s[1], s[2]] + [s[3], s[4]] + [s[5], s[6]];
  }

  /** Two colours render alike exactly when their R, G and B agree: alpha never matters, RGB always does. */
  lemma ColorToHexInjective(c1: RGBA, c2: RGBA)
    ensures ColorToHex(c1) == ColorToHex(c2) <==> (c1.r == c2.r && c1.g == c2.g && c1.b == c2.b)
  {
    if ColorToHex(c1) == ColorToHex(c2) {
      ParseColorToHex(c1);
      ParseColorToHex(c2);
    }
  }

  lemma ColorToHexExamples(a: uint8)
    ensures ColorToHex(RGBA(255, 0, 128, a)) == "#ff0080"
    ensures ColorToHex(RGBA(0, 0, 0, a)) == "#000000"
    ensures ColorToHex(RGBA(255, 0, 0, 255)) == "#ff0000"
  {
  }
}
