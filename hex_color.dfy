/** Hexadecimal colour notation: the `#RRGGBB` form of section 5.2 of CSS
    Color Module Level 4, as the colour searcher decodes it into an RGB
    triple (`hexToRgb`), together with the lower-case encoder that is its
    inverse. */
module HexColor {

  /** An RGB triple. Channels are naturals, not bytes: a triple typed as
      `rgb(r, g, b)` is never clamped, so only decoded hex triples are
      known to lie in [0, 255]. */
  datatype Rgb = Rgb(r: nat, g: nat, b: nat)

  /** All three channels fit in one byte. */
  predicate IsByteRgb(c: Rgb) {
    c.r < 256 && c.g < 256 && c.b < 256
  }

  /** One character of the class `[0-9A-Fa-f]`. */
  predicate IsHexDigit(ch: char) {
    '0' <= ch <= '9' || 'a' <= ch <= 'f' || 'A' <= ch <= 'F'
  }

  predicate AllHexDigits(s: string) {
    forall i :: 0 <= i < |s| ==> IsHexDigit(s[i])
  }

  /** ASCII lower-casing; every other character is left alone. */
  function ToLower(ch: char): char {
    if 'A' <= ch <= 'Z' then (ch as int + 32) as char else ch
  }

  function LowerCase(s: string): (t: string)
    ensures |t| == |s|
    ensures forall i :: 0 <= i < |s| ==> t[i] == ToLower(s[i])
  {
    seq(|s|, i requires 0 <= i < |s| => ToLower(s[i]))
  }

  /** The value of one hexadecimal digit, in either case. */
  function HexDigitValue(ch: char): (v: nat)
    requires IsHexDigit(ch)
    ensures v < 16
  {
    if '0' <= ch <= '9' then ch as int - '0' as int
    else if 'a' <= ch <= 'f' then ch as int - 'a' as int + 10
    else ch as int - 'A' as int + 10
  }

  /** The lower-case digit for a value below 16. */
  function HexDigit(v: nat): (ch: char)
    requires v < 16
    ensures IsHexDigit(ch) && ToLower(ch) == ch
    ensures HexDigitValue(ch) == v
  {
    "0123456789abcdef"[v]
  }

  /** Decoding a digit and encoding it again only lower-cases it. */
  lemma HexDigitRoundTrip(ch: char)
    requires IsHexDigit(ch)
    ensures HexDigit(HexDigitValue(ch)) == ToLower(ch)
  {
  }

  function Pow16(n: nat): (p: nat)
    ensures p >= 1
  {
    if n == 0 then 1 else 16 * Pow16(n - 1)
  }

  /** `parseInt(s, 16)` on a string made of hexadecimal digits only. */
  function HexValue(s: string): (v: nat)
    requires AllHexDigits(s)
    ensures v < Pow16(|s|)
  {
    if s == [] then 0
    else
      var init := s[..|s| - 1];
      assert AllHexDigits(init);
      var w := HexValue(init);
      assert w <= Pow16(|s| - 1) - 1;
      w * 16 + HexDigitValue(s[|s| - 1])
  }

  /** `hex.replace(/^#/, "")`: at most one leading `#` is removed, and
      nothing else. */
  function StripHash(s: string): (t: string)
    ensures s == t || s == "#" + t
    ensures |s| > 0 && s[0] == '#' ==> |t| == |s| - 1
  {
    if |s| > 0 && s[0] == '#' then s[1..] else s
  }

  /** What `hexToRgb` needs to produce numbers: once the optional `#` is
      stripped, six hexadecimal digits come first. Longer strings are
      read up to their sixth character, as `substring` does. */
  predicate WellFormedHex(hex: string) {
    var h := StripHash(hex);
    |h| >= 6 && AllHexDigits(h[..6])
  }

  /** `hexToRgb`: the slices [0,2), [2,4) and [4,6) of the stripped string
      read as base-16 numbers. Each channel is high digit times 16 plus low
      digit, so it is a byte. */
  function HexToRgb(hex: string): (c: Rgb)
    requires WellFormedHex(hex)
    ensures IsByteRgb(c)
    ensures var h := StripHash(hex);
      && c.r == 16 * HexDigitValue(h[0]) + HexDigitValue(h[1])
      && c.g == 16 * HexDigitValue(h[2]) + HexDigitValue(h[3])
      && c.b == 16 * HexDigitValue(h[4]) + HexDigitValue(h[5])
  {
    var h := StripHash(hex);
    assert forall i :: 0 <= i < 6 ==> IsHexDigit(h[i]) by {
      forall i | 0 <= i < 6 ensures IsHexDigit(h[i]) { assert h[..6][i] == h[i]; }
    }
    HexPairValue(h[0..2]);
    HexPairValue(h[2..4]);
    HexPairValue(h[4..6]);
    Rgb(HexValue(h[0..2]), HexValue(h[2..4]), HexValue(h[4..6]))
  }

  /** Two digits are worth sixteen times the first plus the second. */
  lemma HexPairValue(s: string)
    requires |s| == 2 && AllHexDigits(s)
    ensures HexValue(s) == 16 * HexDigitValue(s[0]) + HexDigitValue(s[1])
  {
    assert s[..1][..0] == [];
  }

  /** Two lower-case digits for a byte. */
  function ByteToHex(v: nat): (s: string)
    requires v < 256
    ensures |s| == 2 && AllHexDigits(s)
    ensures 16 * HexDigitValue(s[0]) + HexDigitValue(s[1]) == v
  {
    [HexDigit(v / 16), HexDigit(v % 16)]
  }

  /** The six lower-case digits of a byte triple, without `#`. */
  function RgbToHex(c: Rgb): (s: string)
    requires IsByteRgb(c)
    ensures |s| == 6 && AllHexDigits(s) && LowerCase(s) == s
  {
    var s := ByteToHex(c.r) + ByteToHex(c.g) + ByteToHex(c.b);
    assert forall i :: 0 <= i < 6 ==> ToLower(s[i]) == s[i];
    s
  }

  /** Encoding a byte triple and decoding it gives the triple back, with or
      without the `#`. */
  lemma {:induction false} RgbHexRoundTrip(c: Rgb)
    requires IsByteRgb(c)
    ensures WellFormedHex(RgbToHex(c)) && HexToRgb(RgbToHex(c)) == c
    ensures WellFormedHex("#" + RgbToHex(c)) && HexToRgb("#" + RgbToHex(c)) == c
  {
    var s := RgbToHex(c);
    assert StripHash(s) == s;
    assert StripHash("#" + s) == s;
    assert s[..6] == s;
  }

  /** Decoding six digits and encoding the triple again gives the digits
      back, lower-cased. */
  lemma {:induction false} HexRgbRoundTrip(h: string)
    requires |h| == 6 && AllHexDigits(h)
    ensures WellFormedHex(h) && RgbToHex(HexToRgb(h)) == LowerCase(h)
  {
    assert WellFormedHex(h) by { assert h[..6] == h; }
    var c := HexToRgb(h);
    assert StripHash(h) == h;
    ByteRoundTrip(h[0], h[1], c.r);
    ByteRoundTrip(h[2], h[3], c.g);
    ByteRoundTrip(h[4], h[5], c.b);
    LowerSix(h);
  }

  lemma LowerSix(h: string)
    requires |h| == 6
    ensures LowerCase(h) ==
      [ToLower(h[0]), ToLower(h[1])] + [ToLower(h[2]), ToLower(h[3])] + [ToLower(h[4]), ToLower(h[5])]
  {
  }

  /** Encoding the byte that two digits stand for gives the two digits
      back, lower-cased. */
  lemma ByteRoundTrip(hi: char, lo: char, v: nat)
    requires IsHexDigit(hi) && IsHexDigit(lo)
    requires v == 16 * HexDigitValue(hi) + HexDigitValue(lo)
    ensures ByteToHex(v) == [ToLower(hi), ToLower(lo)]
  {
    assert v / 16 == HexDigitValue(hi) && v % 16 == HexDigitValue(lo);
    HexDigitRoundTrip(hi);
    HexDigitRoundTrip(lo);
  }

  /** Only one leading `#` is stripped: a `#` in front of six hexadecimal
      digits does not change what it decodes to, and the stripped string
      of `"#" + s` is `s` itself, even when `s` starts with `#`. */
  lemma HashIgnored(s: string)
    ensures StripHash("#" + s) == s
    ensures |s| >= 6 && AllHexDigits(s[..6]) ==>
      WellFormedHex(s) && WellFormedHex("#" + s) && HexToRgb("#" + s) == HexToRgb(s)
  {
    assert ("#" + s)[1..] == s;
    if |s| >= 6 && AllHexDigits(s[..6]) {
      assert IsHexDigit(s[..6][0]);
      assert StripHash(s) == s;
    }
  }

  /** A string whose first character is not `#` is not stripped at all. */
  lemma NothingElseStripped(s: string)
    requires s == [] || s[0] != '#'
    ensures StripHash(s) == s
  {
  }

  /** A sequence is its prefix of length `n` followed by the rest. */
  lemma SplitAt<T>(s: seq<T>, n: nat)
    requires n <= |s|
    ensures s == s[..n] + s[n..]
  {
  }
}
