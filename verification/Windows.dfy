/** The sliding windows: a ring of the latest samples, exact quantiles and intervals over it. */
module Windows {
  import opened Quantiles
  import opened Bits

  /** The latest n samples, or all of them if there are fewer. */
  function Latest(s: seq<int>, n: nat): (r: seq<int>)
    ensures |r| == if |s| < n then |s| else n
  {
    if |s| <= n then s else s[|s| - n..]
  }

  /** src/histogram.cpp:268-272 */
  function ClampIndex(v: real, n: nat): (i: nat)
    requires n >= 1
    ensures i < n
  {
    if v < 0.0 then 0 else if v.Floor >= n then n - 1 else v.Floor
  }

  lemma SortedNonEmpty(s: seq<int>)
    requires s != []
    ensures |Sorted(s)| == |s|
  {
    SortedSorts(s, 0);
  }

  /** The sample at a quantile, read off a sorted copy. */
  function QuantileOf(s: seq<int>, q: real): int
    requires s != []
  {
    SortedNonEmpty(s);
    Sorted(s)[Rank(q, |s|) - 1]
  }

  /** That is the sample at that quantile. */
  lemma ReadsQuantile(s: seq<int>, q: real)
    requires s != []
    ensures IsQuantile(s, q, QuantileOf(s, q))
  {
    SortedReadsNth(s, Rank(q, |s|));
    RankPicksQuantile(s, q, QuantileOf(s, q));
  }

  lemma SameOrderSameQuantile(a: seq<int>, b: seq<int>, q: real)
    requires a != [] && |a| == |b| && Sorted(a) == Sorted(b)
    ensures QuantileOf(a, q) == QuantileOf(b, q) && IsQuantile(b, q, QuantileOf(a, q))
  {
    ReadsQuantile(b, q);
  }

  // --- what the two ends of an interval are ---

  /** The sample at position v of the sorted ones, rounded down, or the one at the nearer end. */
  predicate IsLowEnd(s: seq<int>, v: real, e: int) {
    if v < 0.0 then IsLeast(s, e)
    else if v >= |s| as real then IsGreatest(s, e)
    else e in s && CountBelow(s, e) as real <= v < CountUpTo(s, e) as real
  }

  /** The same, rounded up. */
  predicate IsHighEnd(s: seq<int>, v: real, e: int) {
    if v <= -1.0 then IsLeast(s, e)
    else if v > (|s| - 1) as real then IsGreatest(s, e)
    else e in s && CountBelow(s, e) as real < v + 1.0 <= CountUpTo(s, e) as real
  }

  predicate IsRootOf(root: real, x: real) {
    root >= 0.0 && root * root == x
  }

  /** root is the square root QuantileInterval takes. */
  predicate IsRoot(n: nat, q: real, root: real) {
    IsRootOf(root, n as real * Clamp01(q) * (1.0 - Clamp01(q)))
  }

  /** The mean of how many of n samples lie below a share c of them, and z standard deviations of it. */
  ghost predicate IsDeviation(n: nat, c: real, z: real, mean: real, spread: real) {
    && mean == n as real * c
    && exists root, variance :: IsRootOf(root, variance) && variance == n as real * c * (1.0 - c) && spread == z * root
  }

  ghost predicate AreEndsAt(s: seq<int>, c: real, z: real, low: int, high: int) {
    exists mean, spread ::
      IsDeviation(|s|, c, z, mean, spread) && IsLowEnd(s, mean - spread, low) && IsHighEnd(s, mean + spread, high)
  }

  /** The ends lie z standard deviations to either side of the mean of a count: of the samples below the quantile. */
  ghost predicate AreEnds(s: seq<int>, q: real, z: real, low: int, high: int) {
    AreEndsAt(s, if q < 0.0 then 0.0 else if q > 1.0 then 1.0 else q, z, low, high)
  }

  lemma NthAtEnds(s: seq<int>, r: nat, e: int)
    requires IsNth(s, r, e)
    ensures r == 1 ==> IsLeast(s, e)
    ensures r == |s| ==> IsGreatest(s, e)
  {
    if r == 1 {
      FirstIsLeast(s, e);
    }
    if r == |s| {
      LastIsGreatest(s, e);
    }
  }

  lemma LowEndIs(s: seq<int>, v: real, e: int)
    requires s != [] && IsNth(s, ClampIndex(v.Floor as real, |s|) + 1, e)
    ensures IsLowEnd(s, v, e)
  {
    NthAtEnds(s, ClampIndex(v.Floor as real, |s|) + 1, e);
  }

  lemma HighEndIs(s: seq<int>, v: real, e: int)
    requires s != [] && IsNth(s, ClampIndex(Ceil(v) as real, |s|) + 1, e)
    ensures IsHighEnd(s, v, e)
  {
    NthAtEnds(s, ClampIndex(Ceil(v) as real, |s|) + 1, e);
  }

  lemma ReadsLowEnd(s: seq<int>, v: real)
    requires s != [] && |Sorted(s)| == |s|
    ensures IsLowEnd(s, v, Sorted(s)[ClampIndex(v.Floor as real, |s|)])
  {
    var i := ClampIndex(v.Floor as real, |s|);
    SortedReadsNth(s, i + 1);
    LowEndIs(s, v, Sorted(s)[i]);
  }

  lemma ReadsHighEnd(s: seq<int>, v: real)
    requires s != [] && |Sorted(s)| == |s|
    ensures IsHighEnd(s, v, Sorted(s)[ClampIndex(Ceil(v) as real, |s|)])
  {
    var i := ClampIndex(Ceil(v) as real, |s|);
    SortedReadsNth(s, i + 1);
    HighEndIs(s, v, Sorted(s)[i]);
  }

  lemma RootDeviates(n: nat, q: real, z: real, root: real, mean: real, spread: real)
    requires IsRoot(n, q, root) && mean == n as real * Clamp01(q) && spread == z * root
    ensures IsDeviation(n, Clamp01(q), z, mean, spread)
  {
  }

  /** The samples at either side of a position. */
  method ReadSides(t: seq<int>, centre: real, spread: real) returns (low: int, high: int)
    requires t != []
    ensures AreSides(t, centre, spread, low, high)
  {
    low := t[ClampIndex((centre - spread).Floor as real, |t|)];
    high := t[ClampIndex(Ceil(centre + spread) as real, |t|)];
  }

  predicate AreSides(t: seq<int>, centre: real, spread: real, low: int, high: int)
    requires t != []
  {
    && low == t[ClampIndex((centre - spread).Floor as real, |t|)]
    && high == t[ClampIndex(Ceil(centre + spread) as real, |t|)]
  }

  lemma SidesAreEnds(s: seq<int>, q: real, z: real, centre: real, spread: real, low: int, high: int)
    requires s != [] && |Sorted(s)| == |s| && IsDeviation(|s|, Clamp01(q), z, centre, spread)
    requires AreSides(Sorted(s), centre, spread, low, high)
    ensures AreEnds(s, q, z, low, high)
  {
    ReadsLowEnd(s, centre - spread);
    ReadsHighEnd(s, centre + spread);
  }

  // --- the interval holds the quantile ---

  lemma Positive(x: real, y: real, p: real)
    requires x > 0.0 && y > 0.0 && p == x * y
    ensures p > 0.0
  {
  }

  lemma RootIsPositive(n: real, c: real, root: real)
    requires n > 0.0 && 0.0 < c < 1.0 && IsRootOf(root, n * c * (1.0 - c))
    ensures root > 0.0
  {
    Positive(n, c, n * c);
    Positive(n * c, 1.0 - c, n * c * (1.0 - c));
  }

  lemma RootOfZero(root: real)
    requires IsRootOf(root, 0.0)
    ensures root == 0.0
  {
    if root > 0.0 {
      Positive(root, root, root * root);
    }
  }

  /** The spread vanishes exactly at the ends, where the mean is 0 or the number of samples. */
  lemma DeviationInside(n: nat, c: real, z: real, mean: real, spread: real)
    requires n > 0 && 0.0 < c < 1.0 && z > 0.0 && IsDeviation(n, c, z, mean, spread)
    ensures spread > 0.0
  {
    var root, variance :| IsRootOf(root, variance) && variance == n as real * c * (1.0 - c) && spread == z * root;
    RootIsPositive(n as real, c, root);
    Positive(z, root, spread);
  }

  lemma DeviationAtZero(n: nat, z: real, mean: real, spread: real)
    requires IsDeviation(n, 0.0, z, mean, spread)
    ensures mean == 0.0 && spread == 0.0
  {
    var root, variance :| IsRootOf(root, variance) && variance == n as real * 0.0 * (1.0 - 0.0) && spread == z * root;
    RootOfZero(root);
  }

  lemma DeviationAtOne(n: nat, z: real, mean: real, spread: real)
    requires IsDeviation(n, 1.0, z, mean, spread)
    ensures mean == n as real && spread == 0.0
  {
    var root, variance :| IsRootOf(root, variance) && variance == n as real * 1.0 * (1.0 - 1.0) && spread == z * root;
    RootOfZero(root);
  }

  lemma LeastIsBelow(s: seq<int>, e: int, x: int)
    requires IsLeast(s, e) && x in s
    ensures e <= x
  {
  }

  lemma GreatestIsAbove(s: seq<int>, e: int, x: int)
    requires IsGreatest(s, e) && x in s
    ensures x <= e
  {
  }

  /** At most the sample at m is the low end of a range that starts below m, or the last of all. */
  lemma LowEndBelow(s: seq<int>, m: real, spread: real, low: int, e: int)
    requires e in s && m <= CountUpTo(s, e) as real && spread >= 0.0 && m <= |s| as real
    requires spread > 0.0 || m == |s| as real
    requires IsLowEnd(s, m - spread, low)
    ensures low <= e
  {
    if m - spread < 0.0 {
      LeastIsBelow(s, low, e);
    } else if m - spread >= |s| as real {
      var i :| 0 <= i < |s| && s[i] == low;
      GreatestByCount(s, e, i);
    } else if e < low {
      CountsOrdered(s, e, low);
    }
  }

  lemma HighEndAbove(s: seq<int>, m: real, spread: real, high: int, e: int)
    requires e in s && CountBelow(s, e) as real < m && spread >= 0.0 && IsHighEnd(s, m + spread, high)
    ensures e <= high
  {
    if m + spread > (|s| - 1) as real {
      GreatestIsAbove(s, high, e);
    } else if high < e {
      CountsOrdered(s, high, e);
    }
  }

  /** Without a spread and at mean 0 the low end is the least sample. */
  lemma LeastIsHeld(s: seq<int>, low: int, high: int, e: int)
    requires s != [] && IsLowEnd(s, 0.0, low) && IsHighEnd(s, 0.0, high) && IsLeast(s, e)
    ensures low <= e <= high
  {
    assert CountBelow(s, low) == 0;
    var i :| 0 <= i < |s| && s[i] == e;
    LeastByCount(s, low, i);
    LeastIsBelow(s, e, high);
  }

  lemma GreatestIsHeld(s: seq<int>, low: int, high: int, e: int)
    requires s != [] && IsLowEnd(s, |s| as real, low) && IsHighEnd(s, |s| as real, high) && IsGreatest(s, e)
    ensures low <= e <= high
  {
    GreatestIsAbove(s, e, low);
    GreatestIsAbove(s, high, e);
  }

  lemma WholeIsGreatest(s: seq<int>, e: int)
    requires IsQuantile(s, 1.0, e)
    ensures IsGreatest(s, e)
  {
    assert 1.0 * |s| as real == |s| as real;
    forall i | 0 <= i < |s| ensures s[i] <= e {
      GreatestByCount(s, e, i);
    }
  }

  lemma InsideIsHeld(s: seq<int>, q: real, mean: real, spread: real, low: int, high: int, e: int)
    requires s != [] && 0.0 < q < 1.0 && spread > 0.0 && mean == |s| as real * q && IsQuantile(s, q, e)
    requires IsLowEnd(s, mean - spread, low) && IsHighEnd(s, mean + spread, high)
    ensures low <= e <= high
  {
    assert q * |s| as real == mean;
    assert CountBelow(s, e) as real < mean <= CountUpTo(s, e) as real;
    LowEndBelow(s, mean, spread, low, e);
    HighEndAbove(s, mean, spread, high, e);
  }

  lemma HoldsAtZero(s: seq<int>, z: real, low: int, high: int, e: int)
    requires s != [] && AreEndsAt(s, 0.0, z, low, high) && IsLeast(s, e)
    ensures low <= e <= high
  {
    var mean, spread :|
      IsDeviation(|s|, 0.0, z, mean, spread) && IsLowEnd(s, mean - spread, low) && IsHighEnd(s, mean + spread, high);
    DeviationAtZero(|s|, z, mean, spread);
    LeastIsHeld(s, low, high, e);
  }

  lemma HoldsAtOne(s: seq<int>, z: real, low: int, high: int, e: int)
    requires s != [] && AreEndsAt(s, 1.0, z, low, high) && IsGreatest(s, e)
    ensures low <= e <= high
  {
    var mean, spread :|
      IsDeviation(|s|, 1.0, z, mean, spread) && IsLowEnd(s, mean - spread, low) && IsHighEnd(s, mean + spread, high);
    DeviationAtOne(|s|, z, mean, spread);
    GreatestIsHeld(s, low, high, e);
  }

  lemma HoldsInside(s: seq<int>, q: real, z: real, low: int, high: int, e: int)
    requires s != [] && 0.0 < q < 1.0 && z > 0.0 && AreEndsAt(s, q, z, low, high) && IsQuantile(s, q, e)
    ensures low <= e <= high
  {
    var mean, spread :|
      IsDeviation(|s|, q, z, mean, spread) && IsLowEnd(s, mean - spread, low) && IsHighEnd(s, mean + spread, high);
    DeviationInside(|s|, q, z, mean, spread);
    InsideIsHeld(s, q, mean, spread, low, high, e);
  }

  /** The interval around a quantile holds the sample there, for any z > 0. */
  lemma IntervalHoldsQuantile(s: seq<int>, q: real, z: real, low: int, high: int, e: int)
    requires s != [] && z > 0.0 && AreEnds(s, q, z, low, high) && IsQuantile(s, q, e)
    ensures low <= e <= high
  {
    if q <= 0.0 {
      HoldsAtZero(s, z, low, high, e);
    } else if q < 1.0 {
      HoldsInside(s, q, z, low, high, e);
    } else {
      if q == 1.0 {
        WholeIsGreatest(s, e);
      }
      HoldsAtOne(s, z, low, high, e);
    }
  }

  /** src/stats.cpp:368-370 */
  predicate Significant(low: int, high: int) {
    (low > 0 && high > 0) || (low < 0 && high < 0)
  }

  /** What is called significant is an interval without zero. */
  lemma SignificantIff(s: seq<int>, q: real, z: real, low: int, high: int)
    requires s != [] && z > 0.0 && AreEnds(s, q, z, low, high)
    ensures Significant(low, high) <==> !(low <= 0 <= high)
  {
    ReadsQuantile(s, q);
    IntervalHoldsQuantile(s, q, z, low, high, QuantileOf(s, q));
  }

  /** A difference reported as significant has a point estimate of the same strict sign as both bounds, so calling
      it cheaper when it is negative and dearer otherwise (src/dashboard.cpp:426-428) agrees with the whole
      interval. */
  lemma VerdictAgrees(s: seq<int>, q: real, z: real, low: int, high: int, delta: int)
    requires s != [] && z > 0.0 && AreEnds(s, q, z, low, high) && IsQuantile(s, q, delta)
    requires Significant(low, high)
    ensures delta != 0 && (delta < 0 <==> low < 0) && (delta < 0 <==> high < 0)
  {
    IntervalHoldsQuantile(s, q, z, low, high, delta);
  }

  // --- one more sample in a ring ---

  /** The ring's array read from the oldest sample on. */
  function Unrolled(v: seq<int>, next: nat): seq<int>
    requires next <= |v|
  {
    v[next..] + v[..next]
  }

  ghost predicate HoldsLatest(v: seq<int>, next: nat, s: seq<int>) {
    && next < |v|
    && (if |s| < |v| then next == |s| && v[..next] == s else Unrolled(v, next) == Latest(s, |v|))
  }

  lemma LatestOneMore(s: seq<int>, x: int, n: nat)
    requires 1 <= n <= |s|
    ensures Latest(s + [x], n) == Latest(s, n)[1..] + [x]
  {
  }

  lemma UnrolledOneMore(v: seq<int>, next: nat, x: int)
    requires next < |v|
    ensures Unrolled(v[next := x], if next + 1 == |v| then 0 else next + 1) == Unrolled(v, next)[1..] + [x]
  {
  }

  lemma RecordHolds(v: seq<int>, next: nat, s: seq<int>, x: int)
    requires HoldsLatest(v, next, s)
    ensures HoldsLatest(v[next := x], if next + 1 == |v| then 0 else next + 1, s + [x])
  {
    var w := v[next := x];
    if |s| < |v| {
      assert w[..next + 1] == s + [x];
      if |s| + 1 == |v| {
        assert w == w[..next + 1];
        assert Unrolled(w, 0) == w;
      }
    } else {
      UnrolledOneMore(v, next, x);
      LatestOneMore(s, x, |v|);
    }
  }

  lemma NewestHeld(v: seq<int>, next: nat, s: seq<int>)
    requires HoldsLatest(v, next, s) && s != []
    ensures v[if next == 0 then |v| - 1 else next - 1] == s[|s| - 1]
  {
    if |s| < |v| {
      assert v[..next][next - 1] == s[|s| - 1];
    } else {
      var u := Unrolled(v, next);
      assert u[|v| - 1] == Latest(s, |v|)[|v| - 1];
    }
  }

  /** src/histogram.cpp:169 */
  function NextIndex(next: nat, n: nat): (r: nat)
    requires next < n
    ensures r == if next + 1 == n then 0 else next + 1
  {
    WrapNext(next, n);
    (next + 1) % n
  }

  /** src/histogram.cpp:216 */
  function LastIndex(next: nat, n: nat): (r: nat)
    requires next < n
    ensures r == if next == 0 then n - 1 else next - 1
  {
    WrapNext(next, n);
    (next + n - 1) % n
  }

  lemma WrapNext(next: nat, n: nat)
    requires next < n
    ensures (next + 1) % n == if next + 1 == n then 0 else next + 1
    ensures (next + n - 1) % n == if next == 0 then n - 1 else next - 1
  {
    if next + 1 == n {
      ModUnique(next + 1, n, 1, 0);
    } else {
      ModUnique(next + 1, n, 0, next + 1);
    }
    if next == 0 {
      ModUnique(n - 1, n, 0, n - 1);
    } else {
      ModUnique(next + n - 1, n, 1, next - 1);
    }
  }

  /** SampleWindow and SignedWindow differ only in the sign of their samples. */
  class Window {
    const values: array<int>
    var next: nat
    var size: nat
    ghost var samples: seq<int>  // every sample since the last reset

    ghost predicate Valid()
      reads this, values
    {
      values.Length >= 1 && size == |Latest(samples, values.Length)| && HoldsLatest(values[..], next, samples)
    }

    ghost function Held(): seq<int>
      reads this
    {
      Latest(samples, values.Length)
    }

    constructor (capacity: nat)
      ensures Valid() && samples == [] && fresh(values)
      ensures values.Length == if capacity == 0 then 1 else capacity
    {
      values := new int[if capacity == 0 then 1 else capacity](i => 0);
      next, size, samples := 0, 0, [];
    }

    method Record(value: int)
      requires Valid()
      modifies this, values
      ensures Valid() && samples == old(samples) + [value]
    {
      RecordHolds(values[..], next, samples, value);
      ghost var before := values[..];
      values[next] := value;
      assert values[..] == before[next := value];
      next := NextIndex(next, values.Length);
      if size < values.Length {
        size := size + 1;
      }
      samples := samples + [value];
    }

    method Reset()
      requires Valid()
      modifies this
      ensures Valid() && samples == []
    {
      next, size, samples := 0, 0, [];
    }

    /** The part of the array in use holds the latest samples, only rotated. */
    lemma SortedHeld()
      requires Valid()
      ensures size <= values.Length && Sorted(values[..size]) == Sorted(Held())
    {
      if |samples| >= values.Length {
        SortedOfRotation(values[next..], values[..next]);
        assert values[..size] == values[..next] + values[next..];
        assert Unrolled(values[..], next) == values[next..] + values[..next];
      }
    }

    /** Reads the exact quantile of the latest samples. */
    method ValueAtQuantile(q: real) returns (r: int)
      requires Valid()
      ensures r == if Held() == [] then 0 else QuantileOf(Held(), q)
      ensures Held() != [] ==> IsQuantile(Held(), q, r)
    {
      if size == 0 {
        return 0;
      }
      SortedHeld();
      r := QuantileOf(values[..size], q);
      SameOrderSameQuantile(values[..size], Held(), q);
    }

    /** Refuses below eight samples; otherwise the interval of the latest samples. */
    method QuantileInterval(q: real, z: real, root: real) returns (ok: bool, low: int, high: int)
      requires Valid() && IsRoot(|Held()|, q, root)
      ensures ok <==> |Held()| >= 8
      ensures if ok then AreEnds(Held(), q, z, low, high) else low == 0 && high == 0
    {
      if size < 8 {
        return false, 0, 0;
      }
      SortedHeld();
      SortedNonEmpty(Held());
      ok := true;
      var c := Clamp01(q);
      var centre, spread := size as real * c, z * root;
      RootDeviates(size, q, z, root, centre, spread);
      low, high := ReadSides(Sorted(values[..size]), centre, spread);
      SidesAreEnds(Held(), q, z, centre, spread, low, high);
    }

    method Newest() returns (r: int)
      requires Valid()
      ensures r == if samples == [] then 0 else samples[|samples| - 1]
    {
      if size == 0 {
        return 0;
      }
      NewestHeld(values[..], next, samples);
      r := values[LastIndex(next, values.Length)];
    }
  }
}
