/** The histogram as the program keeps it: an array of counters updated in place. */
module HistogramClass {
  import opened Bits
  import opened Quantiles
  import opened HistogramLayout
  import opened HistogramCounts

  function Pow10(d: nat): nat {
    if d == 0 then 1 else 10 * Pow10(d - 1)
  }

  /** The least power of two that reaches ten to the given power. */
  method MagnitudeForDigits(digits: nat) returns (magnitude: nat)
    requires digits <= 5
    ensures Pow2(magnitude) >= Pow10(digits)
    ensures magnitude > 0 ==> Pow2(magnitude - 1) < Pow10(digits)
  {
    var target := 1;
    for i := 0 to digits
      invariant target == Pow10(i)
    {
      target := target * 10;
    }
    magnitude := 0;
    while Pow2(magnitude) < target
      invariant magnitude > 0 ==> Pow2(magnitude - 1) < target
      decreases target - Pow2(magnitude)
    {
      magnitude := magnitude + 1;
    }
  }

  lemma MagnitudeRange(digits: nat, magnitude: nat)
    requires 1 <= digits <= 5
    requires Pow2(magnitude) >= Pow10(digits) && (magnitude > 0 ==> Pow2(magnitude - 1) < Pow10(digits))
    ensures magnitude == if digits == 1 then 4 else if digits == 2 then 7 else if digits == 3 then 10
                         else if digits == 4 then 14 else 17
  {
    assert Pow10(1) == 10 && Pow10(2) == 100 && Pow10(3) == 1000;
    assert Pow10(4) == 10000 && Pow10(5) == 100000;
    assert Pow2(3) == 8 && Pow2(6) == 64 && Pow2(9) == 512;
    Pow2Sum(6, 7);
    Pow2Sum(7, 9);
    var m := if digits == 1 then 4 else if digits == 2 then 7 else if digits == 3 then 10
             else if digits == 4 then 14 else 17;
    assert Pow2(m - 1) < Pow10(digits) <= Pow2(m);
    Pow2Apart(magnitude, m);
    Pow2Apart(m, magnitude);
  }

  /** How many buckets reach past the limit, one doubling at a time; the last one ends at 2^64 and is not computed. */
  method CountBuckets(magnitude: nat, limit: U64) returns (buckets: nat)
    requires 1 <= magnitude <= 63
    ensures buckets >= 1 && magnitude + buckets - 1 <= 64
    ensures limit < Pow2(magnitude + buckets - 1)
    ensures buckets > 1 ==> Pow2(magnitude + buckets - 2) <= limit
  {
    buckets := 1;
    var smallestUntrackable := Pow2(magnitude);
    while smallestUntrackable <= limit
      invariant buckets >= 1 && magnitude + buckets - 1 <= 63
      invariant smallestUntrackable == Pow2(magnitude + buckets - 1)
      invariant buckets > 1 ==> Pow2(magnitude + buckets - 2) <= limit
      decreases 64 - buckets
    {
      Pow2Of64();
      assert Pow2(64) == 2 * Pow2(63);
      if smallestUntrackable > (TWO64 - 1) / 2 {
        Pow2Apart(magnitude + buckets - 1, 63);
        buckets := buckets + 1;
        break;
      }
      smallestUntrackable := smallestUntrackable * 2;
      buckets := buckets + 1;
    }
  }

  datatype SizingResult = Sized(layout: Layout) | Refused

  /** The least range of so many digits that covers the maximum: legal, past the maximum, and with no bucket to
      spare. */
  ghost predicate SizedFor(l: Layout, maxTrackable: U64, digits: nat) {
    && 1 <= digits <= 5 && Legal(l) && maxTrackable < Limit(l)
    && Pow2(l.magnitude) >= Pow10(digits) > Pow2(l.magnitude - 1)
    && (l.buckets > 1 ==> Pow2(l.halfMagnitude + l.buckets - 1) <= (if maxTrackable < 2 then 2 else maxTrackable))
  }

  /** Precisions the constructor rejects are refused. */
  method SizeFor(maxTrackable: U64, digits: nat) returns (r: SizingResult)
    ensures r.Refused? <==> digits < 1 || digits > 5
    ensures r.Sized? ==> SizedFor(r.layout, maxTrackable, digits)
  {
    if digits < 1 || digits > 5 {
      return Refused;
    }
    var limit: U64 := if maxTrackable < 2 then 2 else maxTrackable;
    var magnitude := MagnitudeForDigits(digits);
    MagnitudeRange(digits, magnitude);
    var buckets := CountBuckets(magnitude, limit);
    var count := Pow2(magnitude);
    r := Sized(Layout(magnitude, count / 2, magnitude - 1, count - 1, 64 - magnitude, buckets));
  }

  // --- the state of a histogram ---

  /** The least and the greatest sample, and the starting values when there is none. */
  ghost predicate Extremes(s: seq<int>, min: int, max: int) {
    && (forall k :: 0 <= k < |s| ==> min <= s[k] <= max)
    && (if s == [] then min == TWO64 - 1 && max == 0 else min in s && max in s)
  }

  lemma ExtremesOfConcat(a: seq<int>, aMin: int, aMax: int, b: seq<int>, bMin: int, bMax: int)
    requires Samples(a) && Extremes(a, aMin, aMax) && Samples(b) && Extremes(b, bMin, bMax)
    ensures Extremes(a + b, if bMin < aMin then bMin else aMin, if bMax > aMax then bMax else aMax)
  {
    assert forall x :: x in a + b <==> x in a || x in b;
  }

  ghost function Total(s: seq<int>): real {
    if s == [] then 0.0 else Total(s[..|s| - 1]) + s[|s| - 1] as real
  }

  lemma {:induction false} TotalOfConcat(a: seq<int>, b: seq<int>)
    ensures Total(a + b) == Total(a) + Total(b)
    decreases |b|
  {
    if b == [] {
      assert a + b == a;
    } else {
      assert (a + b)[..|a + b| - 1] == a + b[..|b| - 1];
      TotalOfConcat(a, b[..|b| - 1]);
    }
  }

  /** The totals kept beside the counters. */
  datatype Totals = Totals(count: nat, sum: real, min: int, max: int)

  const NO_SAMPLES: Totals := Totals(0, 0.0, TWO64 - 1, 0)

  ghost predicate TotalsMatch(s: seq<int>, t: Totals) {
    t.count == |s| && t.sum == Total(s) && Extremes(s, t.min, t.max)
  }

  function Combined(t: Totals, u: Totals): Totals {
    Totals(t.count + u.count, t.sum + u.sum,
           if u.min < t.min then u.min else t.min, if u.max > t.max then u.max else t.max)
  }

  lemma TotalsOfConcat(a: seq<int>, t: Totals, b: seq<int>, u: Totals)
    requires Samples(a) && Samples(b) && TotalsMatch(a, t) && TotalsMatch(b, u)
    ensures TotalsMatch(a + b, Combined(t, u))
  {
    ExtremesOfConcat(a, t.min, t.max, b, u.min, u.max);
    TotalOfConcat(a, b);
  }

  lemma TotalsOfOne(v: U64)
    ensures TotalsMatch([v], Totals(1, v as real, v, v))
  {
    assert [v][..0] == [];
  }

  lemma CountsOfBoth(l: Layout, a: seq<int>, aCounts: seq<nat>, b: seq<int>, bCounts: seq<nat>, sum: seq<nat>)
    requires Legal(l) && Samples(a) && Samples(b) && |aCounts| == |bCounts| == |sum|
    requires CountsMatch(l, a, aCounts) && CountsMatch(l, b, bCounts)
    requires forall i :: 0 <= i < |sum| ==> sum[i] == aCounts[i] + bCounts[i]
    ensures Samples(a + b) && CountsMatch(l, a + b, sum)
  {
    forall i | 0 <= i < |sum| ensures sum[i] == InSlot(l, a + b, i) {
      InSlotOfConcat(l, a, b, i);
    }
  }

  lemma CountsOfOneMore(l: Layout, a: seq<int>, counts: seq<nat>, v: U64, index: nat)
    requires Legal(l) && Samples(a) && v >= 1 && CountsMatch(l, a, counts)
    requires index < |counts| && index == SlotFor(l, v)
    ensures Samples(a + [v]) && CountsMatch(l, a + [v], counts[index := counts[index] + 1])
  {
    forall i | 0 <= i < |counts|
      ensures Samples(a + [v]) && counts[index := counts[index] + 1][i] == InSlot(l, a + [v], i)
    {
      InSlotOfConcat(l, a, [v], i);
      assert [v][1..] == [];
    }
  }

  /** sum is exact where the program rounds. */
  class Histogram {
    const layout: Layout
    const counts: array<nat>
    var totalCount: nat
    var sum: real
    var min: U64
    var max: U64
    ghost var samples: seq<int>  // everything recorded, zero counted as one

    ghost predicate Sound()
      reads this
    {
      Legal(layout) && counts.Length == Slots(layout) && Samples(samples) && TotalsMatch(samples, Kept())
    }

    ghost predicate Valid()
      reads this, counts
    {
      Sound() && CountsMatch(layout, samples, counts[..])
    }

    function Kept(): Totals
      reads this
    {
      Totals(totalCount, sum, min, max)
    }

    constructor (layout: Layout)
      requires Legal(layout)
      ensures Valid() && samples == [] && this.layout == layout && fresh(counts)
    {
      this.layout := layout;
      this.counts := new nat[Slots(layout)](i => 0);
      totalCount, sum, min, max := 0, 0.0, TWO64 - 1, 0;
      samples := [];
    }

    /** Takes in the totals of more samples. */
    method Absorb(t: Totals, ghost more: seq<int>)
      requires Sound() && Samples(more) && TotalsMatch(more, t) && 0 <= t.min < TWO64 && 0 <= t.max < TWO64
      modifies this`totalCount, this`sum, this`min, this`max, this`samples
      ensures Sound() && samples == old(samples) + more
    {
      TotalsOfConcat(samples, Kept(), more, t);
      totalCount := totalCount + t.count;
      sum := sum + t.sum;
      if t.min < min { min := t.min; }
      if t.max > max { max := t.max; }
      samples := samples + more;
    }

    method Record(value: U64)
      requires Valid()
      modifies this, counts
      ensures Valid() && samples == old(samples) + [if value == 0 then 1 else value]
    {
      var v: U64 := if value == 0 then 1 else value;
      SlotForInRange(layout, v);
      var index := CountsIndex(layout, v);
      if index >= counts.Length {
        index := counts.Length - 1;
      }
      CountsOfOneMore(layout, samples, counts[..], v, index);
      counts[index] := counts[index] + 1;
      TotalsOfOne(v);
      Absorb(Totals(1, v as real, v, v), [v]);
    }

    /** The scan. */
    method FindSlot(wanted: nat) returns (i: nat)
      requires wanted >= 1
      ensures IsReached(counts[..], wanted, i)
    {
      i := 0;
      var seen := 0;
      while i < counts.Length && seen + counts[i] < wanted
        invariant 0 <= i <= counts.Length && seen == Running(counts[..], i) < wanted
      {
        seen := seen + counts[i];
        i := i + 1;
      }
    }

    /** What the scan answers for the counters as they are; for those of its samples,
        the top of the slot of the sample the quantile asks for. */
    method ValueAtQuantile(quantile: real) returns (r: int)
      requires Legal(layout) && counts.Length == Slots(layout)
      ensures totalCount == 0 ==> r == 0
      ensures totalCount > 0 ==>
                exists i: nat :: IsReached(counts[..], Rank(quantile, totalCount), i) && r == AnswerAt(layout, i, max)
      ensures Valid() && samples != [] ==> exists e: U64 ::
                IsQuantile(samples, quantile, e) && r == Reported(layout, e)
    {
      if totalCount == 0 {
        return 0;
      }
      var i := FindSlot(Rank(quantile, totalCount));
      if i < counts.Length {
        MapsAreInverse(layout, i);
        r := HighestEquivalent(layout, ValueFromIndex(layout, i));
      } else {
        r := max;
      }
      if Valid() {
        SamplesAnswer(quantile, i);
      }
    }

    lemma SamplesAnswer(quantile: real, i: nat)
      requires Valid() && samples != [] && IsReached(counts[..], Rank(quantile, |samples|), i)
      ensures exists e: U64 :: IsQuantile(samples, quantile, e) && AnswerAt(layout, i, max) == Reported(layout, e)
    {
      var wanted := Rank(quantile, |samples|);
      SortedReadsNth(samples, wanted);
      assert Sorted(samples)[wanted - 1] in samples;
      var e: U64 := Sorted(samples)[wanted - 1];
      RankPicksQuantile(samples, quantile, e);
      AnswerOfSamples(layout, samples, counts[..], wanted, e, i, max);
    }

    method Mean() returns (r: real)
      requires Valid()
      ensures samples == [] ==> r == 0.0
      ensures samples != [] ==> r * |samples| as real == Total(samples)
    {
      r := if totalCount == 0 then 0.0 else sum / totalCount as real;
    }

    /** Adds another histogram's counts, or its own once more. A different number of slots is an error and changes
        nothing. With the same layout the result is the histogram of both sample lists; the size check does not ask
        for that. */
    method Merge(other: Histogram) returns (ok: bool)
      requires Valid() && other.Valid() && (other != this ==> other.counts != counts)
      modifies this, counts
      ensures other != this ==> other.Valid() && other.samples == old(other.samples)
      ensures ok <==> counts.Length == other.counts.Length
      ensures ok ==> forall k :: 0 <= k < counts.Length ==> counts[k] == old(counts[k]) + old(other.counts[k])
      ensures ok ==> Sound() && samples == old(samples) + old(other.samples)
      ensures ok && layout == other.layout ==> Valid()
      ensures !ok ==> Valid() && samples == old(samples)
    {
      if other.counts.Length != counts.Length {
        return false;
      }
      ghost var mine, before, added, theirs := samples, counts[..], other.samples, other.counts[..];
      AddCounts(other.counts);
      if layout == other.layout {
        CountsOfBoth(layout, mine, before, added, theirs, counts[..]);
      }
      Absorb(other.Kept(), added);
      ok := true;
    }

    /** Slot by slot; more may be the counters themselves. */
    method AddCounts(more: array<nat>)
      requires more.Length == counts.Length
      modifies counts
      ensures forall k :: 0 <= k < counts.Length ==> counts[k] == old(counts[k]) + old(more[k])
    {
      var i := 0;
      while i < counts.Length
        invariant 0 <= i <= counts.Length
        invariant forall k :: 0 <= k < i ==> counts[k] == old(counts[k]) + old(more[k])
        invariant forall k :: i <= k < counts.Length ==> counts[k] == old(counts[k]) && more[k] == old(more[k])
      {
        counts[i] := counts[i] + more[i];
        i := i + 1;
      }
    }

    method Reset()
      requires Valid()
      modifies this, counts
      ensures Valid() && samples == []
    {
      for i := 0 to counts.Length
        invariant forall k :: 0 <= k < i ==> counts[k] == 0
      {
        counts[i] := 0;
      }
      totalCount, sum, min, max := 0, 0.0, TWO64 - 1, 0;
      samples := [];
    }
  }

  // --- a merge that misreads ---

  lemma CoarseLayout(a: Layout)
    requires SizedFor(a, 131072, 1)
    ensures a.magnitude == 4 && a.half == 8 && a.buckets == 15 && Slots(a) == 128
  {
    MagnitudeRange(1, a.magnitude);
    assert Pow2(3) == 8;
    Pow2Sum(8, 9);
    assert Pow2(8) == 256 && Pow2(9) == 512 && Pow2(17) == 131072;
    Pow2Apart(a.halfMagnitude + a.buckets, 17);
    Pow2Apart(17, a.halfMagnitude + a.buckets - 1);
    Pow2Apart(a.halfMagnitude + a.buckets - 1, 17);
  }

  lemma FineLayout(b: Layout)
    requires SizedFor(b, 100, 2)
    ensures b.magnitude == 7 && b.half == 64 && b.buckets == 1 && Slots(b) == 128
  {
    MagnitudeRange(2, b.magnitude);
    assert Pow2(6) == 64;
    Pow2Apart(6, b.halfMagnitude + b.buckets - 1);
  }

  lemma {:induction false} NothingRunning(counts: seq<nat>, n: nat)
    requires n <= |counts| && forall k :: 0 <= k < n ==> counts[k] == 0
    ensures Running(counts, n) == 0
  {
    if n > 0 {
      NothingRunning(counts, n - 1);
    }
  }

  lemma OneIsReached(counts: seq<nat>, at: nat)
    requires at < |counts| && counts[at] == 1 && forall k :: 0 <= k < at ==> counts[k] == 0
    ensures IsReached(counts, 1, at)
  {
    NothingRunning(counts, at);
  }

  lemma CountsOfFifty(fine: Layout, counts: seq<nat>)
    requires SizedFor(fine, 100, 2) && CountsMatch(fine, [50], counts) && |counts| == 128
    ensures forall k :: 0 <= k < 128 ==> counts[k] == if k == 50 then 1 else 0
  {
    FineLayout(fine);
    IndexOfLinear(fine, 50);
    assert Samples([50]);
    forall k | 0 <= k < 128
      ensures counts[k] == if k == 50 then 1 else 0
    {
      InSlotOfOne(fine, 50, k);
    }
  }

  /** Slot 50 of the coarse layout holds 320 to 351. */
  lemma CoarseFifty(coarse: Layout, max: int)
    requires SizedFor(coarse, 131072, 1)
    ensures AnswerAt(coarse, 50, max) == 351
  {
    CoarseLayout(coarse);
    AndMask(50, 3);
    assert Pow2(3) == 8 && Pow2(5) == 32;
    assert ValueFromIndex(coarse, 50) == 320;
    var b := SlotFacts(coarse, 320);
    Pow2Apart(5, b);
    Pow2Apart(b, 5);
    assert b == 5;
  }

  lemma RankOfHalf()
    ensures Rank(0.5, 1) == 1
  {
  }

  method FiftyInFine() returns (b: Histogram)
    ensures fresh(b) && fresh(b.counts) && b.Valid() && b.samples == [50] && SizedFor(b.layout, 100, 2)
    ensures b.counts.Length == 128 && forall k :: 0 <= k < 128 ==> b.counts[k] == if k == 50 then 1 else 0
  {
    var size := SizeFor(100, 2);
    FineLayout(size.layout);
    b := new Histogram(size.layout);
    b.Record(50);
    CountsOfFifty(b.layout, b.counts[..]);
  }

  method NothingInCoarse() returns (a: Histogram)
    ensures fresh(a) && fresh(a.counts) && a.Valid() && a.samples == [] && SizedFor(a.layout, 131072, 1)
    ensures a.counts.Length == 128 && forall k :: 0 <= k < 128 ==> a.counts[k] == 0
  {
    var size := SizeFor(131072, 1);
    CoarseLayout(size.layout);
    a := new Histogram(size.layout);
  }

  lemma AnswerOfMixed(coarse: Layout, counts: seq<nat>, max: int, r: int)
    requires SizedFor(coarse, 131072, 1) && |counts| == 128 &&
             forall k :: 0 <= k < 128 ==> counts[k] == if k == 50 then 1 else 0
    requires exists i: nat :: IsReached(counts, Rank(0.5, 1), i) && r == AnswerAt(coarse, i, max)
    ensures r == 351
  {
    RankOfHalf();
    OneIsReached(counts, 50);
    var i: nat :| IsReached(counts, Rank(0.5, 1), i) && r == AnswerAt(coarse, i, max);
    ReachedOnce(counts, 1, i, 50);
    CoarseFifty(coarse, max);
  }

  /** A layout of one digit up to 131072 and one of two digits up to 100 have 128 slots each, and Merge lets them
      through. A sample of 50, put into the second and merged into the first, reads back as 351. */
  method MergeAcrossPrecisions() returns (r: int)
    ensures r == 351
  {
    var a := NothingInCoarse();
    var b := FiftyInFine();
    var ok := a.Merge(b);
    r := a.ValueAtQuantile(0.5);
    AnswerOfMixed(a.layout, a.counts[..], a.max, r);
  }
}
