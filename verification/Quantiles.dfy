/** Sorted samples, ranks and the order statistics that quantiles are read from. */
module Quantiles {

  function CountBelow(s: seq<int>, v: int): (n: nat)
    ensures n <= |s|
  {
    if s == [] then 0 else (if s[0] < v then 1 else 0) + CountBelow(s[1..], v)
  }

  function CountUpTo(s: seq<int>, v: int): (n: nat)
    ensures n <= |s|
  {
    if s == [] then 0 else (if s[0] <= v then 1 else 0) + CountUpTo(s[1..], v)
  }

  /** e is the r-th smallest sample: fewer than r are below it, at least r are not above it. */
  predicate IsNth(s: seq<int>, r: nat, e: int) {
    e in s && CountBelow(s, e) < r <= CountUpTo(s, e)
  }

  /** Rounded up, as std::ceil does. */
  function Ceil(x: real): int {
    -((-x).Floor)
  }

  function Clamp01(q: real): real {
    if q < 0.0 then 0.0 else if q > 1.0 then 1.0 else q
  }

  /** A position among n samples rounded up to a rank from 1 to n. */
  function RankAt(centre: real, n: nat): (r: nat)
    requires n >= 1
    ensures 1 <= r <= n
  {
    var wanted := Ceil(centre);
    if wanted < 1 then 1 else if wanted > n then n else wanted
  }

  /** The rank a quantile asks for among n samples. */
  function Rank(q: real, n: nat): (r: nat)
    requires n >= 1
    ensures 1 <= r <= n
  {
    RankAt(Clamp01(q) * n as real, n)
  }

  predicate IsLeast(s: seq<int>, e: int) {
    e in s && forall i :: 0 <= i < |s| ==> e <= s[i]
  }

  predicate IsGreatest(s: seq<int>, e: int) {
    e in s && forall i :: 0 <= i < |s| ==> s[i] <= e
  }

  /** e is the sample at quantile q: at least q of the samples do not exceed it, and fewer than q of them are below it.
      At 0 and less that is the least sample, past 1 the greatest. */
  predicate IsQuantile(s: seq<int>, q: real, e: int) {
    if q <= 0.0 then IsLeast(s, e)
    else if q > 1.0 then IsGreatest(s, e)
    else e in s && CountBelow(s, e) as real < q * |s| as real <= CountUpTo(s, e) as real
  }

  function Below(s: seq<int>, v: int): set<int> {
    set i | 0 <= i < |s| && s[i] < v
  }

  function UpTo(s: seq<int>, v: int): set<int> {
    set i | 0 <= i < |s| && s[i] <= v
  }

  lemma OneMoreBelow(s: seq<int>, x: int, v: int)
    ensures |Below(s + [x], v)| == |Below(s, v)| + if x < v then 1 else 0
  {
    assert Below(s + [x], v) == Below(s, v) + if x < v then {|s|} else {};
  }

  lemma OneMoreUpTo(s: seq<int>, x: int, v: int)
    ensures |UpTo(s + [x], v)| == |UpTo(s, v)| + if x <= v then 1 else 0
  {
    assert UpTo(s + [x], v) == UpTo(s, v) + if x <= v then {|s|} else {};
  }

  /** The two counts are the sizes of these sets. */
  lemma {:induction false} CountsAreSizes(s: seq<int>, v: int)
    ensures CountBelow(s, v) == |Below(s, v)| && CountUpTo(s, v) == |UpTo(s, v)|
  {
    if s == [] {
      assert Below(s, v) == {} && UpTo(s, v) == {};
    } else {
      var front, x := s[..|s| - 1], s[|s| - 1];
      CountsAreSizes(front, v);
      CountsOfConcat(front, [x], v);
      OneMoreBelow(front, x, v);
      OneMoreUpTo(front, x, v);
      assert s == front + [x] && [x][1..] == [];
    }
  }

  lemma {:induction false} LeastByCount(s: seq<int>, e: int, i: nat)
    requires i < |s| && CountBelow(s, e) == 0
    ensures e <= s[i]
  {
    if i > 0 {
      LeastByCount(s[1..], e, i - 1);
    }
  }

  lemma {:induction false} GreatestByCount(s: seq<int>, e: int, i: nat)
    requires i < |s| && CountUpTo(s, e) == |s|
    ensures s[i] <= e
  {
    if i > 0 {
      GreatestByCount(s[1..], e, i - 1);
    }
  }

  /** The rank of a product of quantile and count is between it and one more. */
  lemma RankIsNext(centre: real, n: nat)
    requires n >= 1 && 0.0 < centre <= n as real
    ensures centre <= RankAt(centre, n) as real < centre + 1.0
  {
  }

  lemma ProductInRange(q: real, n: nat, p: real)
    requires 0.0 < q <= 1.0 && n >= 1 && p == q * n as real
    ensures 0.0 < p <= n as real
  {
  }

  lemma FirstIsLeast(s: seq<int>, e: int)
    requires IsNth(s, 1, e)
    ensures IsLeast(s, e)
  {
    forall i | 0 <= i < |s| ensures e <= s[i] {
      LeastByCount(s, e, i);
    }
  }

  lemma LastIsGreatest(s: seq<int>, e: int)
    requires IsNth(s, |s|, e)
    ensures IsGreatest(s, e)
  {
    forall i | 0 <= i < |s| ensures s[i] <= e {
      GreatestByCount(s, e, i);
    }
  }

  lemma RankAtEnds(q: real, n: nat)
    requires n >= 1
    ensures q <= 0.0 ==> Rank(q, n) == 1
    ensures q > 1.0 ==> Rank(q, n) == n
  {
  }

  lemma RankBetween(q: real, n: nat)
    requires n >= 1 && 0.0 < q <= 1.0
    ensures q * n as real <= Rank(q, n) as real < q * n as real + 1.0
  {
    ProductInRange(q, n, q * n as real);
    RankIsNext(q * n as real, n);
  }

  lemma InsideIsQuantile(s: seq<int>, q: real, p: real, r: nat, e: int)
    requires 0.0 < q <= 1.0 && p == q * |s| as real && IsNth(s, r, e) && p <= r as real < p + 1.0
    ensures IsQuantile(s, q, e)
  {
    assert CountBelow(s, e) as real < p <= CountUpTo(s, e) as real;
  }

  lemma MiddleIsQuantile(s: seq<int>, q: real, r: nat, e: int)
    requires 0.0 < q <= 1.0 && s != [] && r == Rank(q, |s|) && IsNth(s, r, e)
    ensures IsQuantile(s, q, e)
  {
    RankBetween(q, |s|);
    InsideIsQuantile(s, q, q * |s| as real, r, e);
  }

  /** The sample that the rank picks is the quantile. */
  lemma RankPicksQuantile(s: seq<int>, q: real, e: int)
    requires s != [] && IsNth(s, Rank(q, |s|), e)
    ensures IsQuantile(s, q, e)
  {
    RankAtEnds(q, |s|);
    if q <= 0.0 {
      FirstIsLeast(s, e);
    } else if q > 1.0 {
      LastIsGreatest(s, e);
    } else {
      MiddleIsQuantile(s, q, Rank(q, |s|), e);
    }
  }

  /** There is one quantile. */
  lemma QuantileIsUnique(s: seq<int>, q: real, a: int, b: int)
    requires s != [] && IsQuantile(s, q, a) && IsQuantile(s, q, b)
    ensures a == b
  {
    if a < b {
      CountsOrdered(s, a, b);
    } else if b < a {
      CountsOrdered(s, b, a);
    }
  }

  function Insert(x: int, s: seq<int>): seq<int> {
    if s == [] || x <= s[0] then [x] + s else [s[0]] + Insert(x, s[1..])
  }

  /** What std::sort leaves. */
  function Sorted(s: seq<int>): seq<int> {
    if s == [] then [] else Insert(s[0], Sorted(s[1..]))
  }

  predicate Ascending(s: seq<int>) {
    forall i, j :: 0 <= i <= j < |s| ==> s[i] <= s[j]
  }

  lemma {:induction false} InsertMembers(x: int, s: seq<int>, y: int)
    ensures y in Insert(x, s) <==> y == x || y in s
    ensures |Insert(x, s)| == |s| + 1
  {
    if s != [] && x > s[0] {
      InsertMembers(x, s[1..], y);
    }
  }

  lemma {:induction false} InsertSorts(x: int, s: seq<int>)
    requires Ascending(s)
    ensures Ascending(Insert(x, s))
  {
    if s != [] && x > s[0] {
      var t := Insert(x, s[1..]);
      InsertSorts(x, s[1..]);
      forall i | 0 <= i < |t| ensures s[0] <= t[i] {
        InsertMembers(x, s[1..], t[i]);
      }
    }
  }

  lemma {:induction false} InsertCounts(x: int, s: seq<int>, v: int)
    ensures CountBelow(Insert(x, s), v) == CountBelow([x] + s, v)
    ensures CountUpTo(Insert(x, s), v) == CountUpTo([x] + s, v)
  {
    if s != [] && x > s[0] {
      InsertCounts(x, s[1..], v);
      assert ([x] + s)[1..] == s && ([x] + s[1..])[1..] == s[1..];
    }
  }

  /** Sorting puts the samples in order and keeps every one of them. */
  lemma {:induction false} SortedSorts(s: seq<int>, v: int)
    ensures Ascending(Sorted(s)) && |Sorted(s)| == |s|
    ensures v in Sorted(s) <==> v in s
    ensures CountBelow(Sorted(s), v) == CountBelow(s, v) && CountUpTo(Sorted(s), v) == CountUpTo(s, v)
  {
    if s != [] {
      var t := Sorted(s[1..]);
      SortedSorts(s[1..], v);
      InsertSorts(s[0], t);
      InsertMembers(s[0], t, v);
      InsertCounts(s[0], t, v);
      assert ([s[0]] + t)[1..] == t;
    }
  }

  lemma {:induction false} CountsOfConcat(a: seq<int>, b: seq<int>, v: int)
    ensures CountBelow(a + b, v) == CountBelow(a, v) + CountBelow(b, v)
    ensures CountUpTo(a + b, v) == CountUpTo(a, v) + CountUpTo(b, v)
  {
    if a == [] {
      assert a + b == b;
    } else {
      CountsOfConcat(a[1..], b, v);
      assert (a + b)[1..] == a[1..] + b;
    }
  }

  lemma {:induction false} CountsOfAscending(s: seq<int>, k: nat)
    requires Ascending(s) && k < |s|
    ensures CountBelow(s, s[k]) <= k < CountUpTo(s, s[k])
  {
    if k == 0 {
      NoneBelow(s, s[0]);
    } else {
      CountsOfAscending(s[1..], k - 1);
    }
  }

  lemma {:induction false} NoneBelow(s: seq<int>, v: int)
    requires forall i :: 0 <= i < |s| ==> v <= s[i]
    ensures CountBelow(s, v) == 0
  {
    if s != [] {
      NoneBelow(s[1..], v);
    }
  }

  /** Reading position r - 1 of the sorted samples gives the r-th smallest. */
  lemma SortedReadsNth(s: seq<int>, r: nat)
    requires 1 <= r <= |s|
    ensures |Sorted(s)| == |s| && IsNth(s, r, Sorted(s)[r - 1])
  {
    SortedSorts(s, 0);
    var t := Sorted(s);
    CountsOfAscending(t, r - 1);
    SortedSorts(s, t[r - 1]);
  }

  lemma {:induction false} CountsOrdered(s: seq<int>, a: int, b: int)
    requires a < b
    ensures CountUpTo(s, a) <= CountBelow(s, b)
  {
    if s != [] {
      CountsOrdered(s[1..], a, b);
    }
  }

  /** The r-th smallest sample is determined. */
  lemma NthIsUnique(s: seq<int>, r: nat, a: int, b: int)
    requires IsNth(s, r, a) && IsNth(s, r, b)
    ensures a == b
  {
    if a < b {
      CountsOrdered(s, a, b);
    } else if b < a {
      CountsOrdered(s, b, a);
    }
  }

  /** The order in which samples arrived in two stretches does not matter. */
  lemma SortedOfRotation(a: seq<int>, b: seq<int>)
    ensures Sorted(a + b) == Sorted(b + a)
  {
    SortedSorts(a + b, 0);
    SortedSorts(b + a, 0);
    forall k | 0 <= k < |a + b| ensures Sorted(a + b)[k] == Sorted(b + a)[k] {
      var e := Sorted(a + b)[k];
      SortedReadsNth(a + b, k + 1);
      SortedReadsNth(b + a, k + 1);
      CountsOfConcat(a, b, e);
      CountsOfConcat(b, a, e);
      NthIsUnique(b + a, k + 1, e, Sorted(b + a)[k]);
    }
  }
}
