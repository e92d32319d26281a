/**
 * The statistics the log pipeline relies on, over exact reals:
 * sorting, numpy's "linear" percentile, numpy's median, the arithmetic
 * mean, and the NaN-aware variants (numpy propagates NaN, pandas skips it).
 */
module Stats {
  import opened Wrappers

  predicate Sorted(s: seq<real>) {
    forall i, j :: 0 <= i <= j < |s| ==> s[i] <= s[j]
  }

  /** Smallest element, defined independently of sorting. */
  function Min(s: seq<real>): (m: real)
    requires |s| > 0
    ensures m in s
    ensures forall i :: 0 <= i < |s| ==> m <= s[i]
  {
    if |s| == 1 then s[0]
    else
      var rest := Min(s[1..]);
      if s[0] <= rest then s[0] else rest
  }

  /** Largest element, defined independently of sorting. */
  function Max(s: seq<real>): (m: real)
    requires |s| > 0
    ensures m in s
    ensures forall i :: 0 <= i < |s| ==> s[i] <= m
  {
    if |s| == 1 then s[0]
    else
      var rest := Max(s[1..]);
      if s[0] >= rest then s[0] else rest
  }

  function Insert(x: real, s: seq<real>): (r: seq<real>)
    requires Sorted(s)
    ensures Sorted(r)
    ensures multiset(r) == multiset(s) + multiset{x}
    ensures |r| == |s| + 1
    ensures r[0] == x || (|s| > 0 && r[0] == s[0])
  {
    if s == [] || x <= s[0] then
      ConsSorted(x, s);
      [x] + s
    else
      SortedTail(s);
      var t := Insert(x, s[1..]);
      assert s[0] <= t[0] by {
        if |s| > 1 { assert s[1..][0] == s[1]; }
      }
      ConsSorted(s[0], t);
      assert s == [s[0]] + s[1..];
      [s[0]] + t
  }

  /** Putting an element no larger than the head in front keeps a sequence sorted. */
  lemma ConsSorted(h: real, t: seq<real>)
    requires Sorted(t)
    requires |t| > 0 ==> h <= t[0]
    ensures Sorted([h] + t)
  {
    var r := [h] + t;
    forall i, j | 0 <= i <= j < |r| ensures r[i] <= r[j] {
      if i == 0 && j > 0 {
        assert r[j] == t[j - 1] && t[0] <= t[j - 1];
      } else if i > 0 {
        assert r[i] == t[i - 1] && r[j] == t[j - 1];
      }
    }
  }

  /** The sorted rearrangement of `s` (numpy sorts before it interpolates). */
  function Sort(s: seq<real>): (r: seq<real>)
    ensures Sorted(r)
    ensures multiset(r) == multiset(s)
    ensures |r| == |s|
  {
    if s == [] then []
    else
      assert s == [s[0]] + s[1..];
      var r := Insert(s[0], Sort(s[1..]));
      assert |r| == |multiset(r)|;
      r
  }

  /** A sorted sequence is determined by its multiset of elements. */
  lemma {:induction false} SortedUnique(a: seq<real>, b: seq<real>)
    requires Sorted(a) && Sorted(b)
    requires multiset(a) == multiset(b)
    ensures a == b
    decreases |a|
  {
    assert |a| == |multiset(a)| == |multiset(b)| == |b|;
    if |a| > 0 {
      SortedHeadIsLeast(a, b[0]);
      SortedHeadIsLeast(b, a[0]);
      TailMultiset(a, b);
      SortedTail(a);
      SortedTail(b);
      SortedUnique(a[1..], b[1..]);
      assert a == [a[0]] + a[1..] && b == [b[0]] + b[1..];
    }
  }

  /** Equal multisets with equal heads have equal tails. */
  lemma TailMultiset(a: seq<real>, b: seq<real>)
    requires |a| > 0 && |b| > 0 && a[0] == b[0] && multiset(a) == multiset(b)
    ensures multiset(a[1..]) == multiset(b[1..])
  {
    assert a == [a[0]] + a[1..];
    assert b == [b[0]] + b[1..];
    assert multiset(a[1..]) == multiset(a) - multiset{a[0]};
    assert multiset(b[1..]) == multiset(b) - multiset{b[0]};
  }

  /** The head of a sorted sequence is at most any element of its multiset. */
  lemma SortedHeadIsLeast(a: seq<real>, x: real)
    requires Sorted(a) && |a| > 0 && x in multiset(a)
    ensures a[0] <= x
  {
    assert x in a;
  }

  lemma SortedTail(a: seq<real>)
    requires Sorted(a) && |a| > 0
    ensures Sorted(a[1..])
  {
    forall i, j | 0 <= i <= j < |a| - 1 ensures a[1..][i] <= a[1..][j] {
      assert a[1..][i] == a[i + 1] && a[1..][j] == a[j + 1];
    }
  }

  /** Bounds on every element are bounds on the extremes. */
  lemma ExtremesWithin(s: seq<real>, lo: real, hi: real)
    requires |s| > 0
    requires forall i :: 0 <= i < |s| ==> lo <= s[i] <= hi
    ensures lo <= Min(s) && Max(s) <= hi
  {
  }

  /** Sorting forgets the input order. */
  lemma SortPermutationInvariant(a: seq<real>, b: seq<real>)
    requires multiset(a) == multiset(b)
    ensures Sort(a) == Sort(b)
  {
    SortedUnique(Sort(a), Sort(b));
  }

  /** Elements of the sorted sequence come from the input. */
  lemma SortElements(s: seq<real>, k: int)
    requires 0 <= k < |s|
    ensures Sort(s)[k] in s
  {
    assert Sort(s)[k] in multiset(Sort(s));
  }

  // ---------------------------------------------------------------
  // numpy.percentile with the default "linear" method
  // ---------------------------------------------------------------

  /** Index of the upper neighbour; numpy clips it to the last element. */
  function Upper(n: nat, lo: int): int {
    if lo + 1 < n then lo + 1 else n - 1
  }

  /**
   * Linear interpolation at the virtual index `h` of a sorted sequence:
   * s[lo] + (h - lo) * (s[hi] - s[lo]) with lo = floor(h).
   */
  function Interpolate(s: seq<real>, h: real): real
    requires |s| > 0 && 0.0 <= h <= (|s| - 1) as real
  {
    var lo := h.Floor;
    s[lo] + (h - lo as real) * (s[Upper(|s|, lo)] - s[lo])
  }

  lemma ScaleBetween(t: real, d: real)
    requires 0.0 <= t <= 1.0 && 0.0 <= d
    ensures 0.0 <= t * d <= d
  {
    assert d - t * d == (1.0 - t) * d;
  }

  lemma NonNegativeProduct(a: real, b: real)
    requires 0.0 <= a && 0.0 <= b
    ensures 0.0 <= a * b
  {
  }

  lemma ScaleMonotone(t1: real, t2: real, d: real)
    requires t1 <= t2 && 0.0 <= d
    ensures t1 * d <= t2 * d
  {
    assert t2 * d - t1 * d == (t2 - t1) * d;
  }

  lemma LerpMonotone(a: real, b: real, t1: real, t2: real)
    requires a <= b && t1 <= t2
    ensures a + t1 * (b - a) <= a + t2 * (b - a)
  {
    ScaleMonotone(t1, t2, b - a);
  }

  /** The interpolated value lies between its two neighbours. */
  lemma InterpolateBetween(s: seq<real>, h: real)
    requires Sorted(s) && |s| > 0 && 0.0 <= h <= (|s| - 1) as real
    ensures s[h.Floor] <= Interpolate(s, h) <= s[Upper(|s|, h.Floor)]
  {
    var lo := h.Floor;
    var hi := Upper(|s|, lo);
    var t, d := h - lo as real, s[hi] - s[lo];
    assert 0.0 <= t <= 1.0;
    assert 0 <= lo <= hi < |s|;
    assert 0.0 <= d;
    ScaleBetween(t, d);
    assert Interpolate(s, h) == s[lo] + t * d;
  }

  lemma {:induction false} InterpolateMonotone(s: seq<real>, h1: real, h2: real)
    requires Sorted(s) && |s| > 0
    requires 0.0 <= h1 <= h2 <= (|s| - 1) as real
    ensures Interpolate(s, h1) <= Interpolate(s, h2)
  {
    var lo1, lo2 := h1.Floor, h2.Floor;
    if lo1 == lo2 {
      var hi := Upper(|s|, lo1);
      assert 0 <= lo1 <= hi < |s|;
      LerpMonotone(s[lo1], s[hi], h1 - lo1 as real, h2 - lo1 as real);
    } else {
      InterpolateBetween(s, h1);
      InterpolateBetween(s, h2);
      assert Upper(|s|, lo1) <= lo2;
    }
  }

  /** Virtual index of the p-th percentile: (p / 100) * (n - 1). */
  function VirtualIndex(n: nat, p: real): (h: real)
    requires n > 0 && 0.0 <= p <= 100.0
    ensures 0.0 <= h <= (n - 1) as real
  {
    var q, m := p / 100.0, (n - 1) as real;
    ScaleBetween(q, m);
    q * m
  }

  function PercentileSorted(s: seq<real>, p: real): real
    requires |s| > 0 && 0.0 <= p <= 100.0
  {
    Interpolate(s, VirtualIndex(|s|, p))
  }

  /** numpy.percentile(s, p): linear interpolation on the sorted sample. */
  function Percentile(s: seq<real>, p: real): real
    requires |s| > 0 && 0.0 <= p <= 100.0
  {
    PercentileSorted(Sort(s), p)
  }

  function MedianSorted(s: seq<real>): real
    requires |s| > 0
  {
    var m := |s| / 2;
    if |s| % 2 == 1 then s[m] else (s[m - 1] + s[m]) / 2.0
  }

  /** numpy.median: the middle element, or the mean of the two middle ones. */
  function Median(s: seq<real>): real
    requires |s| > 0
  {
    MedianSorted(Sort(s))
  }

  // ---------------------------------------------------------------
  // Properties of percentile and median
  // ---------------------------------------------------------------

  /** A larger p never gives a smaller percentile. */
  lemma PercentileMonotone(s: seq<real>, p: real, q: real)
    requires |s| > 0 && 0.0 <= p <= q <= 100.0
    ensures Percentile(s, p) <= Percentile(s, q)
  {
    VirtualIndexMonotone(|s|, p, q);
    InterpolateMonotone(Sort(s), VirtualIndex(|s|, p), VirtualIndex(|s|, q));
  }

  lemma VirtualIndexMonotone(n: nat, p: real, q: real)
    requires n > 0 && 0.0 <= p <= q <= 100.0
    ensures VirtualIndex(n, p) <= VirtualIndex(n, q)
  {
    var m := (n - 1) as real;
    var t1, t2 := p / 100.0, q / 100.0;
    var h1, h2 := VirtualIndex(n, p), VirtualIndex(n, q);
    assert h1 == t1 * m && h2 == t2 * m;
    assert h2 - h1 == (t2 - t1) * m;
    NonNegativeProduct(t2 - t1, m);
  }

  /** The median is the 50th percentile under linear interpolation. */
  lemma MedianIsP50(s: seq<real>)
    requires |s| > 0
    ensures Median(s) == Percentile(s, 50.0)
  {
    MedianSortedIsP50(Sort(s));
  }

  /** The interpolation at the halfway index picks the middle element or the midpoint of the middle two. */
  lemma MedianSortedIsP50(t: seq<real>)
    requires |t| > 0
    ensures MedianSorted(t) == PercentileSorted(t, 50.0)
  {
    var n, m := |t|, |t| / 2;
    var h := VirtualIndex(n, 50.0);
    HalfIndex(n);
    if n % 2 == 1 {
      assert h.Floor == m;
      assert Interpolate(t, h) == t[m];
    } else {
      assert h.Floor == m - 1;
      assert Upper(n, m - 1) == m;
      assert Interpolate(t, h) == t[m - 1] + 0.5 * (t[m] - t[m - 1]);
    }
  }

  /** Where the 50th percentile falls: on the middle element, or halfway between the two middle ones. */
  lemma HalfIndex(n: nat)
    requires n > 0
    ensures n % 2 == 1 ==> VirtualIndex(n, 50.0) == (n / 2) as real
    ensures n % 2 == 0 ==> VirtualIndex(n, 50.0) == (n / 2 - 1) as real + 0.5
  {
    assert VirtualIndex(n, 50.0) == 0.5 * (n - 1) as real;
    if n % 2 == 1 {
      assert n == 2 * (n / 2) + 1;
    } else {
      assert n == 2 * (n / 2);
    }
  }

  /** Median and percentiles do not depend on the order of the sample. */
  lemma PercentilePermutationInvariant(a: seq<real>, b: seq<real>, p: real)
    requires |a| > 0 && multiset(a) == multiset(b) && 0.0 <= p <= 100.0
    ensures |b| > 0
    ensures Percentile(a, p) == Percentile(b, p)
    ensures Median(a) == Median(b)
  {
    assert |a| == |multiset(a)| == |multiset(b)| == |b|;
    SortPermutationInvariant(a, b);
  }

  /** Every percentile lies between the smallest and the largest sample. */
  lemma PercentileWithin(s: seq<real>, p: real)
    requires |s| > 0 && 0.0 <= p <= 100.0
    ensures Min(s) <= Percentile(s, p) <= Max(s)
  {
    var t := Sort(s);
    var h := VirtualIndex(|s|, p);
    InterpolateBetween(t, h);
    SortElements(s, h.Floor);
    SortElements(s, Upper(|s|, h.Floor));
  }

  lemma MedianWithin(s: seq<real>)
    requires |s| > 0
    ensures Min(s) <= Median(s) <= Max(s)
  {
    MedianIsP50(s);
    PercentileWithin(s, 50.0);
  }

  // ---------------------------------------------------------------
  // Arithmetic mean
  // ---------------------------------------------------------------

  function Sum(s: seq<real>): real {
    if s == [] then 0.0 else s[0] + Sum(s[1..])
  }

  function Mean(s: seq<real>): real
    requires |s| > 0
  {
    Sum(s) / |s| as real
  }

  lemma {:induction false} SumBounds(s: seq<real>, lo: real, hi: real)
    requires forall i :: 0 <= i < |s| ==> lo <= s[i] <= hi
    ensures |s| as real * lo <= Sum(s) <= |s| as real * hi
  {
    if s != [] {
      SumBounds(s[1..], lo, hi);
    }
  }

  /** The mean of values in [lo, hi] is in [lo, hi]. */
  lemma MeanWithin(s: seq<real>, lo: real, hi: real)
    requires |s| > 0
    requires forall i :: 0 <= i < |s| ==> lo <= s[i] <= hi
    ensures lo <= Mean(s) <= hi
  {
    SumBounds(s, lo, hi);
    var n := |s| as real;
    assert Mean(s) * n == Sum(s);
    if Mean(s) < lo {
      ScaleMonotone(Mean(s), lo, n);
    }
    if hi < Mean(s) {
      ScaleMonotone(hi, Mean(s), n);
    }
  }

  // ---------------------------------------------------------------
  // Missing values: None stands for NaN
  // ---------------------------------------------------------------

  /** The present values, in order (pandas `dropna`). */
  function Present(xs: seq<Option<real>>): (r: seq<real>)
    ensures |r| <= |xs|
    ensures forall v :: v in r <==> Some(v) in xs
  {
    if xs == [] then []
    else
      var rest := Present(xs[1..]);
      assert xs == [xs[0]] + xs[1..];
      match xs[0]
      case Some(v) => [v] + rest
      case None => rest
  }

  /** dropna keeps each value as many times as it occurs. */
  lemma {:induction false} PresentCount(xs: seq<Option<real>>)
    ensures forall v :: multiset(Present(xs))[v] == multiset(xs)[Some(v)]
  {
    if xs != [] {
      PresentCount(xs[1..]);
      assert xs == [xs[0]] + xs[1..];
      assert multiset(xs) == multiset{xs[0]} + multiset(xs[1..]);
      if xs[0].Some? {
        assert Present(xs) == [xs[0].value] + Present(xs[1..]);
        assert multiset(Present(xs)) == multiset{xs[0].value} + multiset(Present(xs[1..]));
      }
    }
  }

  /** dropna keeps the order of the values it keeps. */
  lemma {:induction false} PresentAppend(xs: seq<Option<real>>, ys: seq<Option<real>>)
    ensures Present(xs + ys) == Present(xs) + Present(ys)
  {
    if xs == [] {
      assert xs + ys == ys;
    } else {
      assert (xs + ys)[0] == xs[0];
      assert (xs + ys)[1..] == xs[1..] + ys;
      PresentAppend(xs[1..], ys);
    }
  }

  lemma PresentNonEmpty(xs: seq<Option<real>>)
    ensures |Present(xs)| > 0 <==> exists i :: 0 <= i < |xs| && xs[i].Some?
  {
    if |Present(xs)| > 0 {
      assert Some(Present(xs)[0]) in xs;
    }
    if i :| 0 <= i < |xs| && xs[i].Some? {
      assert xs[i].value in Present(xs);
    }
  }

  predicate AllPresent(xs: seq<Option<real>>) {
    forall i :: 0 <= i < |xs| ==> xs[i].Some?
  }

  lemma {:induction false} PresentOfAllPresent(xs: seq<Option<real>>)
    requires AllPresent(xs)
    ensures |Present(xs)| == |xs|
    ensures forall i :: 0 <= i < |xs| ==> Present(xs)[i] == xs[i].value
  {
    if xs != [] {
      PresentOfAllPresent(xs[1..]);
    }
  }

  /** numpy.median: NaN if the array is empty or holds a NaN. */
  function NpMedian(xs: seq<Option<real>>): (r: Option<real>)
    ensures r.Some? <==> |xs| > 0 && AllPresent(xs)
  {
    if |xs| > 0 && AllPresent(xs) then
      PresentOfAllPresent(xs);
      Some(Median(Present(xs)))
    else None
  }

  /** numpy.percentile on a non-empty array: NaN if it holds a NaN. */
  function NpPercentile(xs: seq<Option<real>>, p: real): (r: Option<real>)
    requires |xs| > 0 && 0.0 <= p <= 100.0
    ensures r.Some? <==> AllPresent(xs)
  {
    if AllPresent(xs) then
      PresentOfAllPresent(xs);
      Some(Percentile(Present(xs), p))
    else None
  }

  /** pandas Series.median: NaN values are skipped; NaN if none is left. */
  function SkipNaMedian(xs: seq<Option<real>>): (r: Option<real>)
    ensures r.Some? <==> exists i :: 0 <= i < |xs| && xs[i].Some?
  {
    PresentNonEmpty(xs);
    if |Present(xs)| > 0 then Some(Median(Present(xs))) else None
  }

  /** pandas Series.mean: NaN values are skipped; NaN if none is left. */
  function SkipNaMean(xs: seq<Option<real>>): (r: Option<real>)
    ensures r.Some? <==> exists i :: 0 <= i < |xs| && xs[i].Some?
  {
    PresentNonEmpty(xs);
    if |Present(xs)| > 0 then Some(Mean(Present(xs))) else None
  }

  /** A skip-NaN mean of values that all lie in [lo, hi] lies in [lo, hi]. */
  lemma SkipNaMeanWithin(xs: seq<Option<real>>, lo: real, hi: real)
    requires forall i :: 0 <= i < |xs| && xs[i].Some? ==> lo <= xs[i].value <= hi
    ensures SkipNaMean(xs).Some? ==> lo <= SkipNaMean(xs).value <= hi
  {
    var p := Present(xs);
    if |p| > 0 {
      forall k | 0 <= k < |p| ensures lo <= p[k] <= hi {
        assert Some(p[k]) in xs;
      }
      MeanWithin(p, lo, hi);
    }
  }
}
