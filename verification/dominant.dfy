/** Choosing the most frequent colour from a histogram, in whatever order the map is ranged over. */
module Dominant {
  import opened Colors
  import opened Images
  import opened Histograms

  /**
   * The running-maximum loop of `FindDominantColor` (and of `listFile`): `maxCount` starts at 0 and a key
   * replaces the current choice only when its count is strictly greater.
   * `order` is the order in which `range` happens to visit the keys.
   */
  method SelectDominant(counts: map<RGBA, nat>, order: seq<RGBA>) returns (dominant: RGBA, maxCount: nat)
    requires IsOrdering(order, counts)
    ensures forall c :: c in counts ==> counts[c] <= maxCount
    ensures maxCount == 0 ==> dominant == Zero
    ensures maxCount > 0 ==> dominant in counts && counts[dominant] == maxCount
    ensures maxCount > 0 ==>
              exists i :: 0 <= i < |order| && order[i] == dominant && forall j :: 0 <= j < i ==> counts[order[j]] < maxCount
  {
    dominant := Zero;
    maxCount := 0;
    var i := 0;
    while i < |order|
      invariant 0 <= i <= |order|
      invariant forall j :: 0 <= j < i ==> counts[order[j]] <= maxCount
      invariant maxCount == 0 ==> dominant == Zero
      invariant maxCount > 0 ==> dominant in counts && counts[dominant] == maxCount
      invariant maxCount > 0 ==>
                  exists k :: 0 <= k < i && order[k] == dominant && forall j :: 0 <= j < k ==> counts[order[j]] < maxCount
    {
      var col := order[i];
      var count := counts[col];
      if count > maxCount {
        dominant := col;
        maxCount := count;
      }
      i := i + 1;
    }
  }

  /**
   * `c` with count `n` is an admissible answer for `img`: the zero colour with
   * count 0 when the image has no pixel, otherwise a colour of the image whose
   * pixel count is at least that of every colour.
   */
  ghost predicate IsDominant(img: Image, c: RGBA, n: nat)
  {
    && (IsEmpty(img) ==> c == Zero && n == 0)
    && (!IsEmpty(img) ==> c in Pixels(img) && n == CountOf(img, c) && forall d :: CountOf(img, d) <= n)
  }

  /**
   * Histogram followed by selection, for one decoded image: the result is
   * dominant, and among the colours of maximal count it is the one the map
   * iteration reaches first.
   */
  method DominantColor(img: Image, order: seq<RGBA>) returns (dominant: RGBA, maxCount: nat)
    requires IsOrdering(order, Histogram(img))
    ensures IsDominant(img, dominant, maxCount)
    ensures maxCount == CountOf(img, dominant)
    ensures !IsEmpty(img) ==>
              exists i :: 0 <= i < |order| && order[i] == dominant && forall j :: 0 <= j < i ==> CountOf(img, order[j]) < maxCount
  {
    var counts := CountColors(img);
    dominant, maxCount := SelectDominant(counts, order);
    PixelsLength(img);
    if !IsEmpty(img) {
      var p := Pixels(img)[0];
      assert p in Pixels(img);
      assert counts[p] >= 1;
    } else {
      assert Pixels(img) == [];
    }
  }

  /**
   * A dominant colour exists for every image: some iteration order of its
   * histogram can always be chosen, and `DominantColor` then yields an admissible answer.
   */
  lemma DominantExists(img: Image) returns (c: RGBA, n: nat)
    ensures IsDominant(img, c, n)
  {
    var order := OrderingExists(Histogram(img));
    var counts := Histogram(img);
    PixelsLength(img);
    if IsEmpty(img) {
      assert Pixels(img) == [];
      c, n := Zero, 0;
    } else {
      c, n := MaxKey(counts, order);
      forall d
        ensures CountOf(img, d) <= n
      {
        HistogramCounts(img, d);
      }
      var p := Pixels(img)[0];
      assert p in Pixels(img);
      assert p in counts && counts[p] >= 1;
    }
  }

  /** A key of maximal count, found by recursion over an ordering of the keys (the zero colour for no keys). */
  lemma {:induction false} MaxKey(counts: map<RGBA, nat>, order: seq<RGBA>) returns (c: RGBA, n: nat)
    requires forall i :: 0 <= i < |order| ==> order[i] in counts
    ensures forall i :: 0 <= i < |order| ==> counts[order[i]] <= n
    ensures n > 0 ==> c in counts && counts[c] == n
    ensures forall k :: k in counts && k in order && counts[k] > 0 ==> n > 0
  {
    if order == [] {
      c, n := Zero, 0;
    } else {
      var c', n' := MaxKey(counts, order[1..]);
      if counts[order[0]] > n' {
        c, n := order[0], counts[order[0]];
      } else {
        c, n := c', n';
      }
      assert forall i :: 1 <= i < |order| ==> order[i] == order[1..][i - 1];
    }
  }

  /** A uniform non-empty image has its one colour as dominant colour, with count width × height. */
  lemma UniformDominant(img: Image, c: RGBA, d: RGBA, n: nat)
    requires !IsEmpty(img) && Uniform(img, c)
    requires IsDominant(img, d, n)
    ensures d == c && n == img.width * img.height
  {
    UniformCount(img, c);
  }

  /** All admissible answers share one count, which is 0 exactly for an empty image. */
  lemma DominantCountUnique(img: Image, c1: RGBA, n1: nat, c2: RGBA, n2: nat)
    requires IsDominant(img, c1, n1) && IsDominant(img, c2, n2)
    ensures n1 == n2
    ensures n1 == 0 <==> IsEmpty(img)
  {
    if !IsEmpty(img) {
      assert CountOf(img, c1) <= n2 && CountOf(img, c2) <= n1;
    }
  }
}
