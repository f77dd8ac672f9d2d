/** The exact-colour histogram of an image (the `colorCounts` map) and the loops that build it. */
module Histograms {
  import opened Colors
  import opened Images

  /** Reference histogram of a pixel sequence: one key per colour that occurs, mapped to its number of occurrences. */
  function HistogramOf(s: seq<RGBA>): map<RGBA, nat>
  {
    map c | c in s :: multiset(s)[c]
  }

  /** Reference histogram of an image. */
  function Histogram(img: Image): map<RGBA, nat>
  {
    HistogramOf(Pixels(img))
  }

  /** `counts` holds exactly the colours of `s`, each with its number of occurrences in `s`. */
  ghost predicate Tallies(counts: map<RGBA, nat>, s: seq<RGBA>)
  {
    && (forall c :: c in counts <==> c in s)
    && (forall c :: c in counts ==> counts[c] == multiset(s)[c])
  }

  /** `counts[c]++` on a Go map whose missing keys read as 0. */
  function Increment(counts: map<RGBA, nat>, c: RGBA): (r: map<RGBA, nat>)
    ensures r.Keys == counts.Keys + {c}
    ensures r[c] == (if c in counts then counts[c] else 0) + 1
    ensures forall d :: d in counts && d != c ==> r[d] == counts[d]
  {
    counts[c := (if c in counts then counts[c] else 0) + 1]
  }

  lemma TalliesStep(counts: map<RGBA, nat>, s: seq<RGBA>, c: RGBA)
    requires Tallies(counts, s)
    ensures Tallies(Increment(counts, c), s + [c])
  {
    assert multiset(s + [c]) == multiset(s) + multiset{c};
  }

  /**
   * The nested loops of `FindDominantColor` (and of `listFile`): every pixel visited once, y outer and x inner,
   * incrementing that exact colour's entry.
   */
  method CountColors(img: Image) returns (counts: map<RGBA, nat>)
    ensures forall c :: c in counts <==> c in Pixels(img)
    ensures forall c :: c in counts ==> counts[c] == CountOf(img, c)
    ensures counts == Histogram(img)
  {
    counts := map[];
    ghost var seen: seq<RGBA> := [];
    var y := 0;
    while y < img.height
      invariant 0 <= y <= img.height
      invariant seen == Flatten(img.rows[..y])
      invariant Tallies(counts, seen)
    {
      counts := CountRow(img, y, counts, seen);
      FlattenPrefix(img.rows, y);
      seen := seen + img.rows[y];
      y := y + 1;
    }
    assert img.rows[..y] == img.rows;
    TalliesIsHistogram(counts, seen);
  }

  /** The inner loop for row y: adds the row's pixels, x ascending, to a tally of `seen`. */
  method CountRow(img: Image, y: nat, counts: map<RGBA, nat>, ghost seen: seq<RGBA>) returns (next: map<RGBA, nat>)
    requires y < img.height
    requires Tallies(counts, seen)
    ensures Tallies(next, seen + img.rows[y])
  {
    next := counts;
    var x := 0;
    while x < img.width
      invariant 0 <= x <= img.width
      invariant Tallies(next, seen + img.rows[y][..x])
    {
      var c := At(img, x, y);
      TalliesStep(next, seen + img.rows[y][..x], c);
      assert seen + img.rows[y][..x + 1] == seen + img.rows[y][..x] + [c];
      next := Increment(next, c);
      x := x + 1;
    }
    assert img.rows[y][..x] == img.rows[y];
  }

  lemma FlattenPrefix(rows: seq<seq<RGBA>>, y: nat)
    requires y < |rows|
    ensures Flatten(rows[..y + 1]) == Flatten(rows[..y]) + rows[y]
  {
    assert rows[..y + 1][..y] == rows[..y];
  }

  lemma TalliesIsHistogram(counts: map<RGBA, nat>, s: seq<RGBA>)
    requires Tallies(counts, s)
    ensures counts == HistogramOf(s)
  {
  }

  /** The histogram's keys are exactly the colours found at some grid position, each mapped to its pixel count. */
  lemma HistogramCounts(img: Image, c: RGBA)
    ensures c in Histogram(img) <==> exists x: nat, y: nat :: x < img.width && y < img.height && At(img, x, y) == c
    ensures c in Histogram(img) ==> Histogram(img)[c] == CountOf(img, c) > 0
    ensures c !in Histogram(img) ==> CountOf(img, c) == 0
  {
    PixelsMember(img, c);
  }

  /** `order` lists every key of `counts` exactly once: one possible iteration order of `range` over a Go map. */
  ghost predicate IsOrdering(order: seq<RGBA>, counts: map<RGBA, nat>)
  {
    && (forall i, j :: 0 <= i < j < |order| ==> order[i] != order[j])
    && (forall c :: c in counts <==> c in order)
  }

  /** Every histogram can be ranged over: some order lists each of its keys exactly once. */
  lemma OrderingExists(counts: map<RGBA, nat>) returns (order: seq<RGBA>)
    ensures IsOrdering(order, counts)
    decreases |counts.Keys|
  {
    if counts == map[] {
      order := [];
    } else {
      var k :| k in counts;
      var rest := map c | c in counts && c != k :: counts[c];
      assert rest.Keys == counts.Keys - {k};
      var o := OrderingExists(rest);
      order := [k] + o;
    }
  }

  /** The sum of the counts of the listed keys. */
  function SumCounts(counts: map<RGBA, nat>, order: seq<RGBA>): nat
    requires forall i :: 0 <= i < |order| ==> order[i] in counts
  {
    if order == [] then 0 else counts[order[0]] + SumCounts(counts, order[1..])
  }

  /** The sum of the multiplicities of the listed values. */
  function SumMultiplicities(m: multiset<RGBA>, keys: seq<RGBA>): nat
  {
    if keys == [] then 0 else m[keys[0]] + SumMultiplicities(m, keys[1..])
  }

  lemma {:induction false} SumAddOne(m: multiset<RGBA>, keys: seq<RGBA>, p: RGBA)
    requires forall i, j :: 0 <= i < j < |keys| ==> keys[i] != keys[j]
    ensures SumMultiplicities(m + multiset{p}, keys) == SumMultiplicities(m, keys) + (if p in keys then 1 else 0)
  {
    if keys != [] {
      SumAddOne(m, keys[1..], p);
    }
  }

  lemma {:induction false} SumCoversAll(s: seq<RGBA>, keys: seq<RGBA>)
    requires forall i, j :: 0 <= i < j < |keys| ==> keys[i] != keys[j]
    requires forall c :: c in s ==> c in keys
    ensures SumMultiplicities(multiset(s), keys) == |s|
  {
    if s == [] {
      SumOfEmpty(keys);
    } else {
      var n := |s| - 1;
      assert s == s[..n] + [s[n]];
      assert multiset(s) == multiset(s[..n]) + multiset{s[n]};
      assert s[n] in s;
      SumCoversAll(s[..n], keys);
      SumAddOne(multiset(s[..n]), keys, s[n]);
    }
  }

  lemma {:induction false} SumOfEmpty(keys: seq<RGBA>)
    ensures SumMultiplicities(multiset{}, keys) == 0
  {
    if keys != [] {
      SumOfEmpty(keys[1..]);
    }
  }

  lemma {:induction false} SumCountsAgree(counts: map<RGBA, nat>, m: multiset<RGBA>, order: seq<RGBA>)
    requires forall i :: 0 <= i < |order| ==> order[i] in counts && counts[order[i]] == m[order[i]]
    ensures SumCounts(counts, order) == SumMultiplicities(m, order)
  {
    if order != [] {
      SumCountsAgree(counts, m, order[1..]);
    }
  }

  /** Whatever order the keys are listed in, the counts of a histogram add up to the length of the sequence it tallies. */
  lemma TallyTotal(s: seq<RGBA>, order: seq<RGBA>)
    requires IsOrdering(order, HistogramOf(s))
    ensures SumCounts(HistogramOf(s), order) == |s|
  {
    SumCountsAgree(HistogramOf(s), multiset(s), order);
    SumCoversAll(s, order);
  }

  /**
   * Every grid position is counted exactly once: in whatever order the keys are
   * listed, the histogram's counts add up to width × height.
   */
  lemma HistogramTotal(img: Image, order: seq<RGBA>)
    requires IsOrdering(order, Histogram(img))
    ensures SumCounts(Histogram(img), order) == img.width * img.height
  {
    TallyTotal(Pixels(img), order);
    PixelsLength(img);
  }
}
