/** Nearest-colour ranking (`colorDistance`, `filterClosestColors`): every
    palette entry gets its distance from the searched colour, the entries
    are sorted by distance, stably, and the first 100 are kept.

    Distances are squared Euclidean distances. The source takes the square
    root, which is monotone, so the order of the entries is the same and the
    model stays in exact integer arithmetic. */
module Ranking {
  import opened HexColor

  /** A loaded palette entry: its name, its hex code, and the `rgb` and
      `hsl` columns computed from the hex code when the palette was loaded.
      `hsl` is display text and is only carried along. */
  datatype ColorRecord = ColorRecord(color: string, hex: string, rgb: Rgb, hsl: string)

  /** The object `filterClosestColors` builds for each entry: the entry's
      four fields and its distance from the searched colour. */
  datatype Ranked = Ranked(entry: ColorRecord, distance: nat)

  /** `distances.slice(0, 100)`. */
  const ResultLimit: nat := 100

  function Min(a: nat, b: nat): nat {
    if a <= b then a else b
  }

  function Square(x: int): (s: nat)
    ensures s == 0 <==> x == 0
  {
    x * x
  }

  /** `colorDistance` without the square root. */
  function SquaredDistance(a: Rgb, b: Rgb): (d: nat)
    ensures d == 0 <==> a == b
  {
    Square(b.r - a.r) + Square(b.g - a.g) + Square(b.b - a.b)
  }

  /** The distance does not depend on which colour comes first. */
  lemma DistanceSymmetric(a: Rgb, b: Rgb)
    ensures SquaredDistance(a, b) == SquaredDistance(b, a)
  {
    assert Square(b.r - a.r) == Square(a.r - b.r);
    assert Square(b.g - a.g) == Square(a.g - b.g);
    assert Square(b.b - a.b) == Square(a.b - b.b);
  }

  /** Every palette entry has a hex code `hexToRgb` can decode. */
  predicate WellFormedPalette(palette: seq<ColorRecord>) {
    forall i :: 0 <= i < |palette| ==> WellFormedHex(palette[i].hex)
  }

  /** The `map` step: each entry with its distance from `input`, taken
      from the entry's hex code (not from its stored `rgb`). */
  function WithDistances(input: Rgb, palette: seq<ColorRecord>): (r: seq<Ranked>)
    requires WellFormedPalette(palette)
    ensures |r| == |palette|
    ensures forall i :: 0 <= i < |r| ==>
      r[i].entry == palette[i] && (r[i].distance == 0 <==> HexToRgb(palette[i].hex) == input)
  {
    seq(|palette|, i requires 0 <= i < |palette| =>
      Ranked(palette[i], SquaredDistance(input, HexToRgb(palette[i].hex))))
  }

  predicate SortedByDistance(s: seq<Ranked>) {
    forall i, j :: 0 <= i < j < |s| ==> s[i].distance <= s[j].distance
  }

  /** Puts `x` after every entry of `s` whose distance is at most its own,
      walking from the back: one step of a stable insertion sort. */
  function InsertByDistance(s: seq<Ranked>, x: Ranked): (r: seq<Ranked>)
    ensures |r| == |s| + 1
  {
    if s == [] || s[|s| - 1].distance <= x.distance then s + [x]
    else InsertByDistance(s[..|s| - 1], x) + [s[|s| - 1]]
  }

  /** Inserting adds `x` and nothing else. */
  lemma {:induction false} InsertPermutes(s: seq<Ranked>, x: Ranked)
    ensures multiset(InsertByDistance(s, x)) == multiset(s) + multiset{x}
  {
    if s != [] && s[|s| - 1].distance > x.distance {
      var init := s[..|s| - 1];
      assert s == init + [s[|s| - 1]];
      InsertPermutes(init, x);
    }
  }

  lemma {:induction false} InsertKeepsSorted(s: seq<Ranked>, x: Ranked)
    requires SortedByDistance(s)
    ensures SortedByDistance(InsertByDistance(s, x))
  {
    if s != [] && s[|s| - 1].distance > x.distance {
      var init, last := s[..|s| - 1], s[|s| - 1];
      InsertKeepsSorted(init, x);
      InsertPermutes(init, x);
      var r := InsertByDistance(init, x);
      forall i | 0 <= i < |r| ensures r[i].distance <= last.distance {
        assert r[i] in multiset(r);
        if r[i] != x {
          assert r[i] in multiset(init);
          var k :| 0 <= k < |init| && init[k] == r[i];
        }
      }
    }
  }

  /** The array sort of `filterClosestColors` as a function: a stable
      insertion sort by distance. It yields a sorted permutation. */
  function SortByDistance(s: seq<Ranked>): (r: seq<Ranked>)
    ensures |r| == |s|
    ensures SortedByDistance(r)
    ensures multiset(r) == multiset(s)
  {
    if s == [] then []
    else
      var init := s[..|s| - 1];
      assert s == init + [s[|s| - 1]];
      var sortedInit := SortByDistance(init);
      InsertKeepsSorted(sortedInit, s[|s| - 1]);
      InsertPermutes(sortedInit, s[|s| - 1]);
      InsertByDistance(sortedInit, s[|s| - 1])
  }

  /** Sorting one more entry of `s` inserts it into the sorted prefix. */
  lemma SortPrefixStep(s: seq<Ranked>, i: nat)
    requires i < |s|
    ensures SortByDistance(s[..i + 1]) == InsertByDistance(SortByDistance(s[..i]), s[i])
  {
    assert s[..i + 1][..i] == s[..i];
  }

  /** The entries of `s` at distance `d`, in order. */
  function AtDistance(s: seq<Ranked>, d: nat): seq<Ranked> {
    if s == [] then []
    else AtDistance(s[..|s| - 1], d) + (if s[|s| - 1].distance == d then [s[|s| - 1]] else [])
  }

  lemma {:induction false} AtDistanceAppend(a: seq<Ranked>, b: seq<Ranked>, d: nat)
    ensures AtDistance(a + b, d) == AtDistance(a, d) + AtDistance(b, d)
  {
    if b != [] {
      var init := b[..|b| - 1];
      assert (a + b)[..|a + b| - 1] == a + init;
      AtDistanceAppend(a, init, d);
    } else {
      assert a + b == a;
    }
  }

  /** Inserting `x` only adds `x` to the entries at its own distance, and
      adds it after them. */
  lemma {:induction false} InsertStable(s: seq<Ranked>, x: Ranked, d: nat)
    ensures AtDistance(InsertByDistance(s, x), d) == AtDistance(s, d) + (if x.distance == d then [x] else [])
  {
    if s == [] || s[|s| - 1].distance <= x.distance {
      AtDistanceAppend(s, [x], d);
      assert [x][..0] == [];
    } else {
      var init, last := s[..|s| - 1], s[|s| - 1];
      InsertStable(init, x, d);
      AtDistanceAppend(InsertByDistance(init, x), [last], d);
      assert [last][..0] == [];
    }
  }

  /** The sort is stable: the entries at any one distance come out in the
      order they went in. */
  lemma {:induction false} SortStable(s: seq<Ranked>, d: nat)
    ensures AtDistance(SortByDistance(s), d) == AtDistance(s, d)
  {
    if s != [] {
      var init := s[..|s| - 1];
      SortStable(init, d);
      InsertStable(SortByDistance(init), s[|s| - 1], d);
    }
  }

  /** `distances.sort((a, b) => a.distance - b.distance)`, in place. The
      comparator orders by distance alone and `Array.prototype.sort` is
      stable, which is what `SortByDistance` specifies. */
  method SortInPlace(a: array<Ranked>)
    modifies a
    ensures a[..] == SortByDistance(old(a[..]))
  {
    ghost var orig := a[..];
    var i := 0;
    assert orig[..0] == [] && orig[0..] == orig;
    while i < a.Length
      invariant 0 <= i <= a.Length
      invariant a[..] == SortByDistance(orig[..i]) + orig[i..]
    {
      ghost var cur := a[..];
      InsertAt(a, i);
      SortStep(orig, i, cur, a[..]);
      i := i + 1;
    }
    assert orig[..a.Length] == orig && orig[a.Length..] == [];
  }

  /** One pass of the outer loop: inserting the first unsorted entry into
      the sorted prefix extends the sorted prefix by one. */
  lemma SortStep(orig: seq<Ranked>, i: nat, cur: seq<Ranked>, next: seq<Ranked>)
    requires i < |orig| && cur == SortByDistance(orig[..i]) + orig[i..]
    requires next == InsertByDistance(cur[..i], cur[i]) + cur[i + 1..]
    ensures next == SortByDistance(orig[..i + 1]) + orig[i + 1..]
  {
    var sorted := SortByDistance(orig[..i]);
    assert cur[..i] == sorted && cur[i] == orig[i] && cur[i + 1..] == orig[i + 1..];
    SortPrefixStep(orig, i);
  }

  /** The inner loop of the insertion sort: shifts the entries of the
      sorted prefix `a[..i]` that are farther than `a[i]` one place right
      and drops `a[i]` into the gap. */
  method InsertAt(a: array<Ranked>, i: nat)
    requires i < a.Length
    modifies a
    ensures a[..] == InsertByDistance(old(a[..i]), old(a[i])) + old(a[i + 1..])
  {
    var x := a[i];
    ghost var sorted, tail := a[..i], a[i + 1..];
    ghost var hole := x;
    var j := i;
    assert sorted[..j] == sorted && sorted[j..] == [];
    assert a[..] == sorted[..j] + [hole] + sorted[j..] + tail;
    while j > 0 && a[j - 1].distance > x.distance
      invariant 0 <= j <= i && |sorted| == i
      invariant a[..] == sorted[..j] + [hole] + sorted[j..] + tail
      invariant InsertByDistance(sorted, x) == InsertByDistance(sorted[..j], x) + sorted[j..]
    {
      Shift(sorted, j, hole, tail);
      InsertStep(sorted, j, x);
      ghost var before := a[..];
      a[j] := a[j - 1];
      assert a[..] == before[j := sorted[j - 1]];
      hole := sorted[j - 1];
      j := j - 1;
    }
    Shift(sorted, j, hole, tail);
    InsertDone(sorted, j, x);
    ghost var before := a[..];
    a[j] := x;
    assert a[..] == before[j := x];
  }

  /** One step of the inner loop on the array's contents: the entry left of
      the hole is copied into it, and the hole moves one place left. */
  lemma Shift(s: seq<Ranked>, j: nat, hole: Ranked, tail: seq<Ranked>)
    requires j <= |s|
    ensures var cur := s[..j] + [hole] + s[j..] + tail;
      && (forall x :: cur[j := x] == s[..j] + [x] + s[j..] + tail)
      && (0 < j ==> cur[j - 1] == s[j - 1]
                    && cur[j := s[j - 1]] == s[..j - 1] + [s[j - 1]] + s[j - 1..] + tail)
  {
    if 0 < j {
      assert s[j - 1..] == [s[j - 1]] + s[j..];
      assert s[..j] == s[..j - 1] + [s[j - 1]];
    }
  }

  lemma InsertStep(s: seq<Ranked>, j: nat, x: Ranked)
    requires 0 < j <= |s| && s[j - 1].distance > x.distance
    ensures InsertByDistance(s[..j], x) + s[j..] == InsertByDistance(s[..j - 1], x) + s[j - 1..]
  {
    assert s[..j][..j - 1] == s[..j - 1];
    assert s[j - 1..] == [s[j - 1]] + s[j..];
  }

  lemma InsertDone(s: seq<Ranked>, j: nat, x: Ranked)
    requires j <= |s| && (j == 0 || s[j - 1].distance <= x.distance)
    ensures InsertByDistance(s[..j], x) + s[j..] == s[..j] + [x] + s[j..]
  {
  }

  /** What `filterClosestColors` returns, as a function of its inputs: at
      most 100 entries, fewer only when the palette is smaller, in
      non-decreasing distance. */
  function ClosestColors(input: Rgb, palette: seq<ColorRecord>): (r: seq<Ranked>)
    requires WellFormedPalette(palette)
    ensures |r| == Min(ResultLimit, |palette|) && SortedByDistance(r)
  {
    SortByDistance(WithDistances(input, palette))[..Min(ResultLimit, |palette|)]
  }

  /** Each entry kept is a palette entry with its fields unchanged, and its
      distance is the one from the input to the colour its hex code names. */
  lemma ClosestAreUnchangedEntries(input: Rgb, palette: seq<ColorRecord>)
    requires WellFormedPalette(palette)
    ensures var r := ClosestColors(input, palette);
      forall k :: 0 <= k < |r| ==>
        r[k].entry in palette && r[k].distance == SquaredDistance(input, HexToRgb(r[k].entry.hex))
  {
    var w := WithDistances(input, palette);
    var sorted := SortByDistance(w);
    var r := ClosestColors(input, palette);
    forall k | 0 <= k < |r|
      ensures r[k].entry in palette && r[k].distance == SquaredDistance(input, HexToRgb(r[k].entry.hex))
    {
      assert r[k] == sorted[k];
      assert sorted[k] in multiset(w);
      var i :| 0 <= i < |w| && w[i] == r[k];
    }
  }

  /** What the ranking leaves out: the entries after the cut. */
  lemma ClosestSplit(input: Rgb, palette: seq<ColorRecord>)
    requires WellFormedPalette(palette)
    ensures var sorted := SortByDistance(WithDistances(input, palette));
      var r := ClosestColors(input, palette);
      sorted == r + sorted[|r|..]
  {
    var sorted := SortByDistance(WithDistances(input, palette));
    var n := Min(ResultLimit, |palette|);
    assert ClosestColors(input, palette) == sorted[..n];
    SplitAt(sorted, n);
  }

  /** No entry left out is nearer than any entry kept. */
  lemma ClosestAreNearest(input: Rgb, palette: seq<ColorRecord>)
    requires WellFormedPalette(palette)
    ensures var w := WithDistances(input, palette);
      var r := ClosestColors(input, palette);
      forall x, y :: x in multiset(w) - multiset(r) && y in r ==> y.distance <= x.distance
  {
    var sorted := SortByDistance(WithDistances(input, palette));
    PrefixNearest(sorted, Min(ResultLimit, |palette|));
  }

  /** In a sorted sequence, nothing after a cut is nearer than anything
      before it. */
  lemma PrefixNearest(sorted: seq<Ranked>, n: nat)
    requires SortedByDistance(sorted) && n <= |sorted|
    ensures forall x, y :: x in multiset(sorted) - multiset(sorted[..n]) && y in sorted[..n] ==>
      y.distance <= x.distance
  {
    var r, dropped := sorted[..n], sorted[n..];
    SplitAt(sorted, n);
    assert multiset(sorted) == multiset(r) + multiset(dropped);
    forall x, y | x in multiset(sorted) - multiset(r) && y in r ensures y.distance <= x.distance {
      assert x in multiset(dropped);
      var m :| 0 <= m < |dropped| && dropped[m] == x;
      var k :| 0 <= k < n && r[k] == y;
      assert sorted[k] == y && sorted[n + m] == x;
    }
  }

  /** A palette of at most 100 entries comes back whole: every entry
      exactly once. */
  lemma SmallPaletteKeptWhole(input: Rgb, palette: seq<ColorRecord>)
    requires WellFormedPalette(palette) && |palette| <= ResultLimit
    ensures multiset(ClosestColors(input, palette)) == multiset(WithDistances(input, palette))
  {
    var sorted := SortByDistance(WithDistances(input, palette));
    assert ClosestColors(input, palette) == sorted;
  }

  /** Entries at equal distance keep palette order: those kept at any one
      distance are the first ones of the palette at that distance. */
  lemma ClosestStable(input: Rgb, palette: seq<ColorRecord>)
    requires WellFormedPalette(palette)
    ensures var w := WithDistances(input, palette);
      var r := ClosestColors(input, palette);
      forall d :: AtDistance(r, d) <= AtDistance(w, d)
  {
    var w := WithDistances(input, palette);
    var sorted := SortByDistance(w);
    var r := ClosestColors(input, palette);
    ClosestSplit(input, palette);
    forall d ensures AtDistance(r, d) <= AtDistance(w, d) {
      AtDistanceAppend(r, sorted[|r|..], d);
      SortStable(w, d);
    }
  }

  /** `filterClosestColors`: builds a fresh array of entries with their
      distances, sorts it in place and keeps the first 100. The palette
      itself is a value and is not changed. */
  method FilterClosestColors(input: Rgb, palette: seq<ColorRecord>) returns (result: seq<Ranked>)
    requires WellFormedPalette(palette)
    ensures result == ClosestColors(input, palette)
    ensures |result| == Min(ResultLimit, |palette|) && SortedByDistance(result)
  {
    var distances := new Ranked[|palette|];
    for i := 0 to |palette|
      invariant distances[..i] == WithDistances(input, palette)[..i]
    {
      distances[i] := Ranked(palette[i], SquaredDistance(input, HexToRgb(palette[i].hex)));
    }
    assert distances[..] == WithDistances(input, palette);
    SortInPlace(distances);
    result := distances[..Min(ResultLimit, |palette|)];
  }
}
