/** The text a user types into the search box, and how the searcher turns
    it into an RGB triple: `#RRGGBB` (`isHexColor`) or a narrow form of the
    `rgb()` functional notation of section 5.1 of CSS Color Module Level 4
    (`isRgbColor`), with integer components only. */
module ColorInput {
  import opened HexColor

  datatype Option<T> = None | Some(value: T)

  /** A character of the regular-expression class `\s` in ECMAScript: the
      WhiteSpace and LineTerminator code points. */
  predicate IsSpace(ch: char) {
    || ch == '\t' || ch == '\n' || ch == '\U{B}' || ch == '\U{C}' || ch == '\r'
    || ch == ' ' || ch == '\U{A0}' || ch == '\U{1680}'
    || '\U{2000}' <= ch <= '\U{200A}'
    || ch == '\U{2028}' || ch == '\U{2029}' || ch == '\U{202F}' || ch == '\U{205F}'
    || ch == '\U{3000}' || ch == '\U{FEFF}'
  }

  /** A character of the class `\d`: ASCII digits only. */
  predicate IsDigit(ch: char) {
    '0' <= ch <= '9'
  }

  /** The two character classes of the `rgb()` pattern. */
  datatype CharClass = Spaces | Digits

  predicate InClass(ch: char, k: CharClass) {
    match k
    case Spaces => IsSpace(ch)
    case Digits => IsDigit(ch)
  }

  predicate AllIn(s: string, k: CharClass) {
    forall i :: 0 <= i < |s| ==> InClass(s[i], k)
  }

  /** `/^#[0-9A-F]{6}$/i`: a `#` and exactly six hexadecimal digits of
      either case, nothing before and nothing after. Accepted text is what
      `hexToRgb` can decode, and its `#` is the one it strips. */
  function IsHexColor(s: string): (b: bool)
    ensures b ==> WellFormedHex(s) && StripHash(s) == s[1..]
  {
    if |s| == 7 && s[0] == '#' && AllHexDigits(s[1..]) then
      assert s[1..][..6] == s[1..];
      true
    else false
  }

  /** The length of the longest prefix of `s` inside a character class: how
      far a greedy `\s*` or `\d+` reaches. */
  function LeadingRun(s: string, k: CharClass): (n: nat)
    ensures n <= |s|
    ensures AllIn(s[..n], k)
    ensures n == |s| || !InClass(s[n], k)
  {
    if s != [] && InClass(s[0], k) then
      var n := 1 + LeadingRun(s[1..], k);
      assert forall i :: 1 <= i < n ==> s[..n][i] == s[1..][..n - 1][i - 1];
      n
    else 0
  }

  /** A prefix inside the class, followed by the end or by a character
      outside it, is exactly what the greedy run takes. */
  lemma {:induction false} LeadingRunOfPrefix(w: string, rest: string, k: CharClass)
    requires AllIn(w, k)
    requires rest == [] || !InClass(rest[0], k)
    ensures LeadingRun(w + rest, k) == |w|
  {
    if w != [] {
      assert (w + rest)[1..] == w[1..] + rest;
      LeadingRunOfPrefix(w[1..], rest, k);
    }
  }

  /** One component of the `rgb()` notation as the regular expression sees
      it: `\s*(\d+)\s*`. Only `digits` is captured. */
  datatype Group = Group(before: string, digits: string, after: string)

  predicate WellFormedGroup(g: Group) {
    AllIn(g.before, Spaces) && g.digits != [] && AllIn(g.digits, Digits) && AllIn(g.after, Spaces)
  }

  function ShowGroup(g: Group): string {
    g.before + g.digits + g.after
  }

  /** A successful match of `/^rgb\(\s*(\d+)\s*,\s*(\d+)\s*,\s*(\d+)\s*\)$/i`:
      the three letters as typed and the three components. */
  datatype RgbMatch = RgbMatch(name: string, red: Group, green: Group, blue: Group)

  predicate WellFormedMatch(m: RgbMatch) {
    && |m.name| == 3 && LowerCase(m.name) == "rgb"
    && WellFormedGroup(m.red) && WellFormedGroup(m.green) && WellFormedGroup(m.blue)
  }

  /** The text a match spans. */
  function Render(m: RgbMatch): string {
    m.name + "(" + ShowGroup(m.red) + "," + ShowGroup(m.green) + "," + ShowGroup(m.blue) + ")"
  }

  /** A component scanned off the front of a string, and what follows the
      separator after it. */
  datatype Scan = Scan(group: Group, rest: string)

  /** Matches `\s*(\d+)\s*` and then `sep` at the start of `s`. The classes
      `\s`, `\d` and the separators are disjoint, so the greedy runs are the
      only way to match and no backtracking is needed. */
  function MatchGroup(s: string, sep: char): (r: Option<Scan>)
    ensures r.Some? ==> |r.value.rest| < |s| && r.value.rest == s[|s| - |r.value.rest|..]
  {
    var i := LeadingRun(s, Spaces);
    var afterBefore := s[i..];
    var j := LeadingRun(afterBefore, Digits);
    var afterDigits := afterBefore[j..];
    var k := LeadingRun(afterDigits, Spaces);
    var afterSpaces := afterDigits[k..];
    if 0 < j && afterSpaces != [] && afterSpaces[0] == sep then
      assert afterSpaces[1..] == s[i + j + k + 1..];
      Some(Scan(Group(s[..i], afterBefore[..j], afterDigits[..k]), afterSpaces[1..]))
    else None
  }

  /** `String.prototype.match` with the `rgb()` pattern: the captured
      pieces, or nothing when the text does not match. Every match is well
      formed and spans the whole text, as the anchors `^` and `$` demand. */
  function MatchRgb(s: string): (r: Option<RgbMatch>)
    ensures r.Some? ==> WellFormedMatch(r.value) && Render(r.value) == s
  {
    if |s| < 4 || LowerCase(s[..3]) != "rgb" || s[3] != '(' then None
    else
      match MatchGroup(s[4..], ',')
      case None => None
      case Some(x) =>
        match MatchGroup(x.rest, ',')
        case None => None
        case Some(y) =>
          match MatchGroup(y.rest, ')')
          case None => None
          case Some(z) =>
            if z.rest == [] then
              MatchGroupSound(s[4..], ',');
              MatchGroupSound(x.rest, ',');
              MatchGroupSound(y.rest, ')');
              var m := RgbMatch(s[..3], x.group, y.group, z.group);
              RenderLayout(m);
              SplitName(s);
              Some(m)
            else None
  }

  /** `isRgbColor`. Text it accepts starts with `r` or `R`, so it is never
      hex text as well: the order of the two tests in `handleClick` does
      not matter. */
  function IsRgbColor(s: string): (b: bool)
    ensures b ==> !IsHexColor(s)
  {
    if MatchRgb(s).Some? then
      assert ToLower(s[..3][0]) == 'r';
      true
    else false
  }

  /** A scanned component is well formed and spells out exactly the text it
      consumed before the separator. */
  lemma MatchGroupSound(s: string, sep: char)
    requires MatchGroup(s, sep).Some?
    ensures var sc := MatchGroup(s, sep).value;
      WellFormedGroup(sc.group) && s == ShowGroup(sc.group) + [sep] + sc.rest
  {
    var i := LeadingRun(s, Spaces);
    var afterBefore := s[i..];
    var j := LeadingRun(afterBefore, Digits);
    var afterDigits := afterBefore[j..];
    var k := LeadingRun(afterDigits, Spaces);
    var afterSpaces := afterDigits[k..];
    assert MatchGroup(s, sep).value == Scan(Group(s[..i], afterBefore[..j], afterDigits[..k]), afterSpaces[1..]);
    SplitAt(s, i);
    SplitAt(afterBefore, j);
    SplitAt(afterDigits, k);
    SplitAt(afterSpaces, 1);
    assert afterSpaces[..1] == [sep];
    Reassemble(s, s[..i], afterBefore, afterBefore[..j], afterDigits, afterDigits[..k], afterSpaces, sep, afterSpaces[1..]);
  }

  /** Putting the four pieces of a scanned component back together. */
  lemma Reassemble(s: string, a: string, ab: string, b: string, ad: string, c: string, d: string, sep: char, rest: string)
    requires s == a + ab && ab == b + ad && ad == c + d && d == [sep] + rest
    ensures s == a + b + c + [sep] + rest
  {
  }

  lemma MatchGroupComplete(g: Group, sep: char, rest: string)
    requires WellFormedGroup(g) && !IsSpace(sep) && !IsDigit(sep)
    ensures MatchGroup(ShowGroup(g) + [sep] + rest, sep) == Some(Scan(g, rest))
  {
    var afterSpaces := [sep] + rest;
    var afterDigits := g.after + afterSpaces;
    var afterBefore := g.digits + afterDigits;
    var s := g.before + afterBefore;
    assert ShowGroup(g) + [sep] + rest == s;
    GroupRuns(g.before, g.digits, g.after, afterSpaces);
    assert afterSpaces[1..] == rest;
    MatchGroupAt(s, sep, |g.before|, afterBefore, |g.digits|, afterDigits, |g.after|, afterSpaces);
  }

  /** The three greedy runs over a rendered component end exactly at its
      pieces' boundaries. */
  lemma GroupRuns(before: string, digits: string, after: string, afterSpaces: string)
    requires WellFormedGroup(Group(before, digits, after))
    requires afterSpaces == [] || (!IsSpace(afterSpaces[0]) && !IsDigit(afterSpaces[0]))
    ensures var afterDigits := after + afterSpaces;
      var afterBefore := digits + afterDigits;
      var s := before + afterBefore;
      && LeadingRun(s, Spaces) == |before| && s[|before|..] == afterBefore && s[..|before|] == before
      && LeadingRun(afterBefore, Digits) == |digits| && afterBefore[|digits|..] == afterDigits
      && afterBefore[..|digits|] == digits
      && LeadingRun(afterDigits, Spaces) == |after| && afterDigits[|after|..] == afterSpaces
      && afterDigits[..|after|] == after
  {
    var afterDigits := after + afterSpaces;
    var afterBefore := digits + afterDigits;
    assert afterBefore[0] == digits[0];
    RunSplit(before, afterBefore, Spaces);
    assert after != [] ==> afterDigits[0] == after[0];
    RunSplit(digits, afterDigits, Digits);
    RunSplit(after, afterSpaces, Spaces);
  }

  /** `MatchGroup` once the three greedy runs are known. */
  lemma MatchGroupAt(s: string, sep: char, i: nat, afterBefore: string, j: nat, afterDigits: string,
                     k: nat, afterSpaces: string)
    requires LeadingRun(s, Spaces) == i && s[i..] == afterBefore
    requires LeadingRun(afterBefore, Digits) == j && afterBefore[j..] == afterDigits
    requires LeadingRun(afterDigits, Spaces) == k && afterDigits[k..] == afterSpaces
    requires 0 < j && afterSpaces != [] && afterSpaces[0] == sep
    ensures MatchGroup(s, sep) == Some(Scan(Group(s[..i], afterBefore[..j], afterDigits[..k]), afterSpaces[1..]))
  {
  }

  /** A greedy run over `w + rest` stops exactly where `w` ends. */
  lemma RunSplit(w: string, rest: string, k: CharClass)
    requires AllIn(w, k)
    requires rest == [] || !InClass(rest[0], k)
    ensures var s := w + rest; LeadingRun(s, k) == |w| && s[..|w|] == w && s[|w|..] == rest
  {
    LeadingRunOfPrefix(w, rest, k);
  }

  /** The text of a match, nested the way the matcher consumes it. */
  lemma RenderLayout(m: RgbMatch)
    ensures Render(m) ==
      m.name + "(" + (ShowGroup(m.red) + [','] + (ShowGroup(m.green) + [','] + (ShowGroup(m.blue) + [')'] + [])))
  {
  }

  lemma NameLayout(name: string, t: string)
    requires |name| == 3
    ensures var s := name + "(" + t; s[..3] == name && s[3] == '(' && s[4..] == t
  {
  }

  lemma SplitName(s: string)
    requires |s| >= 4
    ensures s == s[..3] + "(" + s[4..] <==> s[3] == '('
  {
    if s[3] == '(' {
      assert s == s[..3] + [s[3]] + s[4..];
    }
  }

  /** Every well-formed text of the notation is matched, with its own
      pieces captured. */
  lemma MatchRgbComplete(m: RgbMatch)
    requires WellFormedMatch(m)
    ensures MatchRgb(Render(m)) == Some(m)
  {
    var s := Render(m);
    var tail3 := ShowGroup(m.blue) + [')'] + [];
    var tail2 := ShowGroup(m.green) + [','] + tail3;
    var tail1 := ShowGroup(m.red) + [','] + tail2;
    RenderLayout(m);
    NameLayout(m.name, tail1);
    MatchGroupComplete(m.red, ',', tail2);
    MatchGroupComplete(m.green, ',', tail3);
    MatchGroupComplete(m.blue, ')', []);
    MatchRgbOf(s, Scan(m.red, tail2), Scan(m.green, tail3), Scan(m.blue, []));
  }

  /** `MatchRgb` once the name, the bracket and the three components are
      known. */
  lemma MatchRgbOf(s: string, x: Scan, y: Scan, z: Scan)
    requires |s| >= 4 && LowerCase(s[..3]) == "rgb" && s[3] == '('
    requires MatchGroup(s[4..], ',') == Some(x) && MatchGroup(x.rest, ',') == Some(y)
    requires MatchGroup(y.rest, ')') == Some(z) && z.rest == []
    ensures MatchRgb(s) == Some(RgbMatch(s[..3], x.group, y.group, z.group))
  {
  }

  /** `isRgbColor` accepts exactly the texts that some well-formed match
      spans. */
  lemma IsRgbColorIff(s: string)
    ensures IsRgbColor(s) <==> exists m :: WellFormedMatch(m) && Render(m) == s
  {
    if exists m :: WellFormedMatch(m) && Render(m) == s {
      var m :| WellFormedMatch(m) && Render(m) == s;
      MatchRgbComplete(m);
    }
  }

  function Pow10(n: nat): (p: nat)
    ensures p >= 1
  {
    if n == 0 then 1 else 10 * Pow10(n - 1)
  }

  /** `parseInt(s)` on a string of decimal digits: base 10, leading zeros
      allowed, no upper bound. */
  function DecimalValue(s: string): (v: nat)
    requires AllIn(s, Digits)
    ensures v < Pow10(|s|)
  {
    if s == [] then 0
    else
      var init := s[..|s| - 1];
      assert AllIn(init, Digits);
      var w := DecimalValue(init);
      assert w <= Pow10(|s| - 1) - 1;
      w * 10 + (s[|s| - 1] as int - '0' as int)
  }

  /** The shortest decimal numeral of `n`. */
  function DecimalString(n: nat): (s: string)
    ensures s != [] && AllIn(s, Digits)
    ensures s[0] == '0' ==> n == 0
  {
    var last := ['0' + (n % 10) as char];
    if n < 10 then last else DecimalString(n / 10) + last
  }

  /** The numeral of `n` reads back as `n`. */
  lemma {:induction false} DecimalRoundTrip(n: nat)
    ensures DecimalValue(DecimalString(n)) == n
  {
    var s := DecimalString(n);
    if n >= 10 {
      DecimalRoundTrip(n / 10);
      assert s[..|s| - 1] == DecimalString(n / 10);
    }
  }

  /** A leading zero does not change the value: `parseInt` reads `007`
      as 7. */
  lemma {:induction false} LeadingZeroIgnored(s: string)
    requires AllIn(s, Digits)
    ensures DecimalValue("0" + s) == DecimalValue(s)
  {
    if s != [] {
      var init := s[..|s| - 1];
      assert ("0" + s)[..|s|] == "0" + init;
      LeadingZeroIgnored(init);
    }
  }

  /** A run of digits that does not start with `0` is worth at least
      10^(n-1): `parseInt` keeps every digit. */
  lemma {:induction false} DecimalLowerBound(s: string)
    requires AllIn(s, Digits) && s != [] && s[0] != '0'
    ensures Pow10(|s| - 1) <= DecimalValue(s)
  {
    if |s| > 1 {
      var init := s[..|s| - 1];
      assert AllIn(init, Digits) && init[0] == s[0];
      DecimalLowerBound(init);
      assert DecimalValue(s) == DecimalValue(init) * 10 + (s[|s| - 1] as int - '0' as int);
    }
  }

  /** The triple the `rgb()` branch of `handleClick` builds from a match:
      each captured group through `parseInt`, no clamping. A component of
      n digits without a leading zero lies in [10^(n-1), 10^n), whatever
      the channel range. */
  function MatchedRgb(m: RgbMatch): (c: Rgb)
    requires WellFormedMatch(m)
    ensures c.r < Pow10(|m.red.digits|) && c.g < Pow10(|m.green.digits|) && c.b < Pow10(|m.blue.digits|)
    ensures m.red.digits[0] != '0' ==> Pow10(|m.red.digits| - 1) <= c.r
    ensures m.green.digits[0] != '0' ==> Pow10(|m.green.digits| - 1) <= c.g
    ensures m.blue.digits[0] != '0' ==> Pow10(|m.blue.digits| - 1) <= c.b
  {
    assert m.red.digits[0] != '0' ==> Pow10(|m.red.digits| - 1) <= DecimalValue(m.red.digits) by {
      if m.red.digits[0] != '0' { DecimalLowerBound(m.red.digits); }
    }
    assert m.green.digits[0] != '0' ==> Pow10(|m.green.digits| - 1) <= DecimalValue(m.green.digits) by {
      if m.green.digits[0] != '0' { DecimalLowerBound(m.green.digits); }
    }
    assert m.blue.digits[0] != '0' ==> Pow10(|m.blue.digits| - 1) <= DecimalValue(m.blue.digits) by {
      if m.blue.digits[0] != '0' { DecimalLowerBound(m.blue.digits); }
    }
    Rgb(DecimalValue(m.red.digits), DecimalValue(m.green.digits), DecimalValue(m.blue.digits))
  }

  /** The branch of `handleClick` that turns the search text into the
      colour to rank by: hex first, then `rgb()`, otherwise nothing (the
      source alerts "Invalid color" and returns). */
  function ParseInput(text: string): (r: Option<Rgb>)
    ensures r.Some? <==> IsHexColor(text) || IsRgbColor(text)
    ensures IsHexColor(text) ==> r.Some? && IsByteRgb(r.value)
  {
    if IsHexColor(text) then Some(HexToRgb(text))
    else
      match MatchRgb(text)
      case Some(m) => Some(MatchedRgb(m))
      case None => None
  }

  /** The hex texts accepted are exactly `#` followed by the six digits of
      some byte triple, in any mix of cases. */
  lemma HexColorIff(s: string)
    ensures IsHexColor(s) <==>
      |s| == 7 && s[0] == '#' && exists c :: IsByteRgb(c) && LowerCase(s[1..]) == RgbToHex(c)
  {
    if IsHexColor(s) {
      HexRgbRoundTrip(s[1..]);
      var c := HexToRgb(s[1..]);
      assert IsByteRgb(c) && LowerCase(s[1..]) == RgbToHex(c);
    }
    if |s| == 7 && s[0] == '#' && exists c :: IsByteRgb(c) && LowerCase(s[1..]) == RgbToHex(c) {
      var c :| IsByteRgb(c) && LowerCase(s[1..]) == RgbToHex(c);
      forall i | 0 <= i < 6 ensures IsHexDigit(s[1..][i]) {
        assert IsHexDigit(RgbToHex(c)[i]);
      }
    }
  }

  /** Typing `#` and the encoding of a byte triple searches for that
      triple; typing any accepted hex text searches for the triple whose
      encoding is the text lower-cased. */
  lemma ParseHexText(c: Rgb, s: string)
    requires IsByteRgb(c)
    ensures IsHexColor("#" + RgbToHex(c)) && ParseInput("#" + RgbToHex(c)) == Some(c)
    ensures IsHexColor(s) ==> ParseInput(s).Some? && RgbToHex(ParseInput(s).value) == LowerCase(s[1..])
  {
    var t := "#" + RgbToHex(c);
    assert t[1..] == RgbToHex(c);
    RgbHexRoundTrip(c);
    if IsHexColor(s) {
      HexRgbRoundTrip(s[1..]);
      assert StripHash(s) == s[1..];
      assert HexToRgb(s) == HexToRgb(s[1..]);
    }
  }

  /** Six hex digits without the `#` are neither hex nor `rgb()` text:
      they are rejected. */
  lemma BareHexRejected(s: string)
    requires |s| == 6 && AllHexDigits(s)
    ensures !IsHexColor(s) && ParseInput(s) == None
  {
    assert !IsHexDigit('(') && s[3] != '(';
  }

  /** Accepted `rgb()` text searches for the decimal values of its three
      digit groups. */
  lemma ParseRgbText(m: RgbMatch)
    requires WellFormedMatch(m)
    ensures ParseInput(Render(m)) == Some(MatchedRgb(m))
  {
    MatchRgbComplete(m);
    assert Render(m)[0] == m.name[0];
    assert ToLower(m.name[0]) == 'r';
    assert !IsHexColor(Render(m));
  }

  /** Components are not clamped to 255: `rgb(n,0,0)` searches for red
      channel `n`, however large. */
  lemma NoClamping(n: nat)
    ensures ParseInput("rgb(" + DecimalString(n) + ",0,0)") == Some(Rgb(n, 0, 0))
  {
    var d := DecimalString(n);
    var zero := Group("", "0", "");
    var m := RgbMatch("rgb", Group("", d, ""), zero, zero);
    assert ShowGroup(m.red) == d && ShowGroup(zero) == "0";
    assert LowerCase("rgb") == "rgb";
    assert WellFormedMatch(m);
    RenderLayout(m);
    assert Render(m) == "rgb(" + d + ",0,0)";
    ParseRgbText(m);
    DecimalRoundTrip(n);
    DecimalZero();
    assert MatchedRgb(m) == Rgb(n, 0, 0);
  }

  lemma DecimalZero()
    ensures AllIn("0", Digits) && DecimalValue("0") == 0
  {
    assert "0"[..0] == [];
  }

  /** Text in neither form, such as `notacolor`, is rejected. */
  lemma NotAColorRejected()
    ensures ParseInput("notacolor") == None
  {
    assert "notacolor"[..3] == "not";
    assert LowerCase("not")[0] == 'n';
  }
}
