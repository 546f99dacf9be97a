/** The statistics crawl.py takes of a column: pandas `mean` and `median` over the present values,
    and `int(...)` of a median, which truncates towards zero. Values are exact reals here. */
module Stats {
  import opened Seqs

  function RealLe(a: real, b: real): bool { a <= b }

  lemma RealLeIsTotalOrder()
    ensures TotalPreorder(RealLe)
    ensures forall a, b :: RealLe(a, b) && RealLe(b, a) ==> a == b
  {
  }

  /** The values in ascending order. */
  function Ascending(xs: seq<real>): (s: seq<real>)
    ensures multiset(s) == multiset(xs) && |s| == |xs|
    ensures forall i, j :: 0 <= i < j < |s| ==> s[i] <= s[j]
  {
    RealLeIsTotalOrder();
    var s := SortBy(xs, RealLe);
    assert forall i, j :: 0 <= i < j < |s| ==> RealLe(s[i], s[j]);
    s
  }

  /** pandas `median`: the middle of the sorted values, or the mean of the two middle ones when
      their number is even. */
  function Median(xs: seq<real>): real
    requires xs != []
  {
    Middle(Ascending(xs))
  }

  /** The middle element of s, or the mean of the two middle elements when |s| is even. */
  function Middle(s: seq<real>): real
    requires s != []
  {
    var k := |s| / 2;
    if |s| % 2 == 1 then s[k] else (s[k - 1] + s[k]) / 2.0
  }

  /** In ascending values, the middle lies between the last element of the lower half and the first
      element of the upper half, each half holding (|s| + 1) / 2 elements. */
  lemma MiddleBetweenHalves(s: seq<real>)
    requires s != []
    requires forall i, j :: 0 <= i < j < |s| ==> s[i] <= s[j]
    ensures s[(|s| + 1) / 2 - 1] <= Middle(s) <= s[|s| - (|s| + 1) / 2]
  {
    var k := |s| / 2;
    if |s| % 2 == 0 {
      assert s[k - 1] <= s[k];
    }
  }

  function AtMost(m: real): real -> bool { x => x <= m }

  function AtLeast(m: real): real -> bool { x => x >= m }

  /** In ascending values, when the h-th value is at most m, so are the first h values. */
  lemma AscendingPrefixAtMost(s: seq<real>, h: nat, m: real)
    requires 0 < h <= |s| && s[h - 1] <= m
    requires forall i, j :: 0 <= i < j < |s| ==> s[i] <= s[j]
    ensures CountIf(s, AtMost(m)) >= h
  {
    forall i | 0 <= i < h ensures AtMost(m)(s[i]) {
      if i < h - 1 {
        assert s[i] <= s[h - 1];
      }
    }
    CountIfPrefixAll(s, h, AtMost(m));
  }

  /** In ascending values, when the value at position k is at least m, so are all later values. */
  lemma AscendingSuffixAtLeast(s: seq<real>, k: nat, m: real)
    requires k < |s| && s[k] >= m
    requires forall i, j :: 0 <= i < j < |s| ==> s[i] <= s[j]
    ensures CountIf(s, AtLeast(m)) >= |s| - k
  {
    forall i | k <= i < |s| ensures AtLeast(m)(s[i]) {
      if k < i {
        assert s[k] <= s[i];
      }
    }
    CountIfSuffixAll(s, k, AtLeast(m));
  }

  /** In ascending values, at least half of them are at most the middle and at least half are at
      least the middle. */
  lemma MiddleSplitsInHalves(s: seq<real>)
    requires s != []
    requires forall i, j :: 0 <= i < j < |s| ==> s[i] <= s[j]
    ensures CountIf(s, AtMost(Middle(s))) >= (|s| + 1) / 2
    ensures CountIf(s, AtLeast(Middle(s))) >= (|s| + 1) / 2
  {
    var h := (|s| + 1) / 2;
    MiddleBetweenHalves(s);
    AscendingPrefixAtMost(s, h, Middle(s));
    AscendingSuffixAtLeast(s, |s| - h, Middle(s));
  }

  /** The median splits the values in halves: at least half of them are at most the median and
      at least half are at least the median. */
  lemma MedianSplitsInHalves(xs: seq<real>)
    requires xs != []
    ensures CountIf(xs, AtMost(Median(xs))) >= (|xs| + 1) / 2
    ensures CountIf(xs, AtLeast(Median(xs))) >= (|xs| + 1) / 2
  {
    var s := Ascending(xs);
    MiddleSplitsInHalves(s);
    CountIfPermutation(s, xs, AtMost(Median(xs)));
    CountIfPermutation(s, xs, AtLeast(Median(xs)));
  }

  /** The median lies between two of the values. */
  lemma MedianBetween(xs: seq<real>)
    requires xs != []
    ensures exists i, j :: 0 <= i < |xs| && 0 <= j < |xs| && xs[i] <= Median(xs) <= xs[j]
  {
    var s := Ascending(xs);
    var lo, hi := s[(|s| + 1) / 2 - 1], s[|s| - (|s| + 1) / 2];
    assert lo <= Median(xs) <= hi by {
      MiddleBetweenHalves(s);
    }
    assert lo in multiset(xs) && hi in multiset(xs);
    var i :| 0 <= i < |xs| && xs[i] == lo;
    var j :| 0 <= j < |xs| && xs[j] == hi;
  }

  /** The median lies within any bounds that hold for all values. */
  lemma MedianWithin(xs: seq<real>, lo: real, hi: real)
    requires xs != []
    requires forall i :: 0 <= i < |xs| ==> lo <= xs[i] <= hi
    ensures lo <= Median(xs) <= hi
  {
    MedianBetween(xs);
  }

  /** The median does not depend on the order of the values. */
  lemma MedianIgnoresOrder(xs: seq<real>, ys: seq<real>)
    requires xs != [] && multiset(xs) == multiset(ys)
    ensures ys != [] && Median(xs) == Median(ys)
  {
    assert |ys| == |multiset(ys)| == |xs|;
    RealLeIsTotalOrder();
    SortedUnique(Ascending(xs), Ascending(ys), RealLe);
  }

  /** Python's `int()` on a float: drops the fractional part, rounding towards zero. */
  function Truncate(r: real): (n: int)
    ensures 0.0 <= r ==> n as real <= r < n as real + 1.0
    ensures r < 0.0 ==> n as real - 1.0 < r <= n as real
  {
    if r >= 0.0 then r.Floor else -((-r).Floor)
  }

  function ToReal(x: int): real { x as real }

  /** `int(median)` of integer values. */
  function IntMedian(xs: seq<int>): int
    requires xs != []
  {
    Truncate(Median(Map(xs, ToReal)))
  }

  function IntAtMost(m: int): int -> bool { x => x <= m }

  function IntAtLeast(m: int): int -> bool { x => x >= m }

  /** Truncation keeps the halving property: an integer at most the median is at most its
      truncation, and an integer at least the median is at least its truncation. */
  lemma IntMedianSplitsInHalves(xs: seq<int>)
    requires xs != []
    ensures CountIf(xs, IntAtMost(IntMedian(xs))) >= (|xs| + 1) / 2
    ensures CountIf(xs, IntAtLeast(IntMedian(xs))) >= (|xs| + 1) / 2
  {
    var rs := Map(xs, ToReal);
    var m := Median(rs);
    var n := IntMedian(xs);
    MedianSplitsInHalves(rs);
    var below := (x: int) => AtMost(m)(ToReal(x));
    var above := (x: int) => AtLeast(m)(ToReal(x));
    CountIfMap(xs, ToReal, AtMost(m), below);
    CountIfMap(xs, ToReal, AtLeast(m), above);
    CountIfMonotone(xs, below, IntAtMost(n));
    CountIfMonotone(xs, above, IntAtLeast(n));
  }

  /** `int(median)` lies between two of the values: truncation cannot leave the integer interval
      around the median. */
  lemma IntMedianBetween(xs: seq<int>)
    requires xs != []
    ensures exists i, j :: 0 <= i < |xs| && 0 <= j < |xs| && xs[i] <= IntMedian(xs) <= xs[j]
  {
    var rs := Map(xs, ToReal);
    MedianBetween(rs);
    var i, j :| 0 <= i < |rs| && 0 <= j < |rs| && rs[i] <= Median(rs) <= rs[j];
    assert rs[i] == xs[i] as real && rs[j] == xs[j] as real;
    TruncateBetween(xs[i], Median(rs), xs[j]);
  }

  /** Truncating a real that lies between two integers stays between them. */
  lemma TruncateBetween(a: int, r: real, b: int)
    requires a as real <= r <= b as real
    ensures a <= Truncate(r) <= b
  {
  }

  /** `int(median)` lies within any integer bounds that hold for all values. */
  lemma IntMedianWithin(xs: seq<int>, lo: int, hi: int)
    requires xs != []
    requires forall i :: 0 <= i < |xs| ==> lo <= xs[i] <= hi
    ensures lo <= IntMedian(xs) <= hi
  {
    IntMedianBetween(xs);
  }

  lemma IntMedianIgnoresOrder(xs: seq<int>, ys: seq<int>)
    requires xs != [] && multiset(xs) == multiset(ys)
    ensures ys != [] && IntMedian(xs) == IntMedian(ys)
  {
    MapPermutation(xs, ys, ToReal);
    MedianIgnoresOrder(Map(xs, ToReal), Map(ys, ToReal));
  }

  /** On values already in ascending order, `int(median)` reads the middle directly. */
  lemma IntMedianOfAscending(xs: seq<int>)
    requires xs != []
    requires forall i, j :: 0 <= i < j < |xs| ==> xs[i] <= xs[j]
    ensures var k := |xs| / 2;
      IntMedian(xs) == if |xs| % 2 == 1 then xs[k] else Truncate((xs[k - 1] + xs[k]) as real / 2.0)
  {
    var rs := Map(xs, ToReal);
    RealLeIsTotalOrder();
    SortedUnique(Ascending(rs), rs, RealLe);
  }

  /** An even number of values whose two middle values have an odd sum: the .5 is dropped. */
  lemma IntMedianTruncates()
    ensures IntMedian([100, 201]) == 150
  {
    IntMedianOfAscending([100, 201]);
  }

  function Sum(xs: seq<real>): real
  {
    if xs == [] then 0.0 else xs[0] + Sum(xs[1..])
  }

  /** pandas `mean`. */
  function Mean(xs: seq<real>): real
    requires xs != []
  {
    Sum(xs) / |xs| as real
  }

  lemma {:induction false} SumWithin(xs: seq<real>, lo: real, hi: real)
    requires forall i :: 0 <= i < |xs| ==> lo <= xs[i] <= hi
    ensures |xs| as real * lo <= Sum(xs) <= |xs| as real * hi
  {
    if xs != [] {
      SumWithin(xs[1..], lo, hi);
    }
  }

  /** The mean lies within any bounds that hold for all values. */
  lemma MeanWithin(xs: seq<real>, lo: real, hi: real)
    requires xs != []
    requires forall i :: 0 <= i < |xs| ==> lo <= xs[i] <= hi
    ensures lo <= Mean(xs) <= hi
  {
    SumWithin(xs, lo, hi);
    DivideWithin(Sum(xs), |xs| as real, lo, hi);
  }

  /** Dividing by a positive n keeps a total between n * lo and n * hi within [lo, hi]. */
  lemma DivideWithin(total: real, n: real, lo: real, hi: real)
    requires n > 0.0 && n * lo <= total <= n * hi
    ensures lo <= total / n <= hi
  {
    var q := total / n;
    assert total == q * n;
    assert (q - lo) * n >= 0.0;
    assert (hi - q) * n >= 0.0;
  }
}
