/** What the counters of a histogram say about the samples behind them. */
module HistogramCounts {
  import opened Bits
  import opened Quantiles
  import opened HistogramLayout

  /** Samples as Record takes them: words, with zero counted as one. */
  ghost predicate Samples(s: seq<int>) {
    forall i :: 0 <= i < |s| ==> 1 <= s[i] < TWO64
  }

  /** The slot Record increments: a value past the last slot goes into the last one. */
  function SlotFor(l: Layout, v: U64): int
    requires Legal(l)
  {
    var index := CountsIndex(l, v);
    if index >= Slots(l) then Slots(l) - 1 else index
  }

  ghost function InSlot(l: Layout, s: seq<int>, i: int): nat
    requires Legal(l) && Samples(s)
  {
    if s == [] then 0 else (if SlotFor(l, s[0]) == i then 1 else 0) + InSlot(l, s[1..], i)
  }

  ghost function InSlotsBelow(l: Layout, s: seq<int>, i: int): nat
    requires Legal(l) && Samples(s)
  {
    if s == [] then 0 else (if SlotFor(l, s[0]) < i then 1 else 0) + InSlotsBelow(l, s[1..], i)
  }

  lemma AtLeastTwice(x: nat, h: nat)
    requires x >= 2
    ensures x * h >= 2 * h
  {
    assert (x - 2) * h >= 0;
  }

  lemma AtLeastTwoHalves(l: Layout)
    requires Legal(l)
    ensures Slots(l) >= 2 * l.half && l.half >= 1
  {
    AtLeastTwice(l.buckets + 1, l.half);
  }

  lemma SlotForInRange(l: Layout, v: U64)
    requires Legal(l)
    ensures 0 <= SlotFor(l, v) < Slots(l)
  {
    SlotHolds(l, v);
    AtLeastTwoHalves(l);
  }

  lemma InSlotOfOne(l: Layout, v: int, i: int)
    requires Legal(l) && Samples([v])
    ensures InSlot(l, [v], i) == if SlotFor(l, [v][0]) == i then 1 else 0
  {
    assert [v][1..] == [];
  }

  lemma {:induction false} InSlotOfConcat(l: Layout, a: seq<int>, b: seq<int>, i: int)
    requires Legal(l) && Samples(a) && Samples(b)
    ensures Samples(a + b) && InSlot(l, a + b, i) == InSlot(l, a, i) + InSlot(l, b, i)
  {
    if a == [] {
      assert a + b == b;
    } else {
      InSlotOfConcat(l, a[1..], b, i);
      assert (a + b)[1..] == a[1..] + b;
    }
  }

  lemma {:induction false} OneMoreSlot(l: Layout, s: seq<int>, i: int)
    requires Legal(l) && Samples(s)
    ensures InSlotsBelow(l, s, i + 1) == InSlotsBelow(l, s, i) + InSlot(l, s, i)
  {
    if s != [] {
      OneMoreSlot(l, s[1..], i);
    }
  }

  lemma {:induction false} SlotsFromZero(l: Layout, s: seq<int>)
    requires Legal(l) && Samples(s)
    ensures InSlotsBelow(l, s, 0) == 0 && InSlotsBelow(l, s, Slots(l)) == |s|
  {
    if s != [] {
      SlotsFromZero(l, s[1..]);
      SlotForInRange(l, s[0]);
    }
  }

  lemma SlotForMonotone(l: Layout, v: U64, w: U64)
    requires Legal(l) && v <= w
    ensures SlotFor(l, v) <= SlotFor(l, w)
  {
    IndexMonotone(l, v, w);
  }

  lemma {:induction false} SlotsCoverUpTo(l: Layout, s: seq<int>, e: U64)
    requires Legal(l) && Samples(s)
    ensures CountUpTo(s, e) <= InSlotsBelow(l, s, SlotFor(l, e) + 1)
    ensures InSlotsBelow(l, s, SlotFor(l, e)) <= CountBelow(s, e)
  {
    if s != [] {
      SlotsCoverUpTo(l, s[1..], e);
      if s[0] <= e {
        SlotForMonotone(l, s[0], e);
      } else {
        SlotForMonotone(l, e, s[0]);
      }
    }
  }

  /** The first slot at which the running count reaches r is the slot of the r-th smallest sample. */
  lemma ScanFindsSlot(l: Layout, s: seq<int>, r: nat, e: U64, i: int)
    requires Legal(l) && Samples(s) && IsNth(s, r, e)
    requires InSlotsBelow(l, s, i) < r <= InSlotsBelow(l, s, i + 1)
    ensures SlotFor(l, e) == i
  {
    SlotsCoverUpTo(l, s, e);
    var j := SlotFor(l, e);
    if j < i {
      MoreSlotsMore(l, s, j + 1, i);
    } else if i < j {
      MoreSlotsMore(l, s, i + 1, j);
    }
  }

  lemma {:induction false} MoreSlotsMore(l: Layout, s: seq<int>, i: int, j: int)
    requires Legal(l) && Samples(s) && i <= j
    ensures InSlotsBelow(l, s, i) <= InSlotsBelow(l, s, j)
  {
    if s != [] {
      MoreSlotsMore(l, s[1..], i, j);
    }
  }

  // --- what the scan answers, whatever the counters hold ---

  function Running(counts: seq<nat>, n: nat): nat
    requires n <= |counts|
  {
    if n == 0 then 0 else Running(counts, n - 1) + counts[n - 1]
  }

  /** The first slot at which the running count reaches wanted, or the number of slots. */
  predicate IsReached(counts: seq<nat>, wanted: nat, i: nat) {
    && i <= |counts| && Running(counts, i) < wanted
    && (i < |counts| ==> Running(counts, i + 1) >= wanted)
  }

  lemma {:induction false} RunningGrows(counts: seq<nat>, i: nat, j: nat)
    requires i <= j <= |counts|
    ensures Running(counts, i) <= Running(counts, j)
    decreases j
  {
    if i < j {
      RunningGrows(counts, i, j - 1);
    }
  }

  /** There is only one such slot. */
  lemma ReachedOnce(counts: seq<nat>, wanted: nat, i: nat, j: nat)
    requires IsReached(counts, wanted, i) && IsReached(counts, wanted, j)
    ensures i == j
  {
    if i < j {
      RunningGrows(counts, i + 1, j);
    } else if j < i {
      RunningGrows(counts, j + 1, i);
    }
  }

  /** The top of slot i, and the greatest sample when the scan finds none. */
  ghost function AnswerAt(l: Layout, i: nat, max: int): int
    requires Legal(l)
  {
    if i < Slots(l) then MapsAreInverse(l, i); HighestEquivalent(l, ValueFromIndex(l, i)) else max
  }

  /** Every counter holds the number of samples in its slot. */
  ghost predicate CountsMatch(l: Layout, s: seq<int>, counts: seq<nat>)
    requires Legal(l) && Samples(s)
  {
    forall i :: 0 <= i < |counts| ==> counts[i] == InSlot(l, s, i)
  }

  lemma {:induction false} RunningIsBelow(l: Layout, s: seq<int>, counts: seq<nat>, n: nat)
    requires Legal(l) && Samples(s) && CountsMatch(l, s, counts) && n <= |counts|
    ensures Running(counts, n) == InSlotsBelow(l, s, n)
  {
    if n == 0 {
      SlotsFromZero(l, s);
    } else {
      RunningIsBelow(l, s, counts, n - 1);
      OneMoreSlot(l, s, n - 1);
    }
  }

  /** On the counters of its samples, the scan answers with the top of the slot of the sample wanted. */
  lemma AnswerOfSamples(l: Layout, s: seq<int>, counts: seq<nat>, wanted: nat, e: U64, i: nat, max: int)
    requires Legal(l) && Samples(s) && |counts| == Slots(l) && CountsMatch(l, s, counts)
    requires 1 <= wanted <= |s| && IsNth(s, wanted, e) && IsReached(counts, wanted, i)
    ensures AnswerAt(l, i, max) == Reported(l, e)
  {
    RunningIsBelow(l, s, counts, i);
    SlotsFromZero(l, s);
    assert i < |counts|;
    RunningIsBelow(l, s, counts, i + 1);
    ScanFindsSlot(l, s, wanted, e, i);
    ReportedOfSlot(l, e);
  }

  /** What a histogram answers for a sample: the top of its slot, or the end of the tracked range. */
  ghost function Reported(l: Layout, e: U64): int
    requires Legal(l)
  {
    if e < Limit(l) then HighestEquivalent(l, e) else Limit(l) - 1
  }

  lemma ReportedOfSlot(l: Layout, e: U64)
    requires Legal(l)
    ensures 0 <= SlotFor(l, e) < Slots(l) && ValueFromIndex(l, SlotFor(l, e)) < TWO64
    ensures HighestEquivalent(l, ValueFromIndex(l, SlotFor(l, e))) == Reported(l, e)
  {
    var i := SlotFor(l, e);
    SlotForInRange(l, e);
    MapsAreInverse(l, i);
    SlotHolds(l, ValueFromIndex(l, i));
    SlotHolds(l, e);
    TrackedBelowLimit(l, e);
    LimitIs(l);
  }

  /** The answer is never below the sample exactly when the sample was inside the tracked range. */
  lemma NeverOptimisticIff(l: Layout, e: U64)
    requires Legal(l)
    ensures e <= Reported(l, e) <==> e < Limit(l)
  {
    ReportedError(l, e);
  }

  /** Inside the tracked range the answer is exact below the sub bucket count and less than one half_count-th too
      large. */
  lemma AnswerError(l: Layout, e: U64)
    requires Legal(l) && 1 <= e < Limit(l)
    ensures e <= Reported(l, e)
    ensures e <= l.mask ==> Reported(l, e) == e
    ensures (Reported(l, e) - e) * l.half < e
  {
    ReportedError(l, e);
  }

  ghost predicate ThreeDigits(l: Layout) {
    Legal(l) && l.magnitude == 10
  }

  /** The answer for a sample is within a tenth of a percent of it. */
  ghost predicate WithinTenthPercent(l: Layout, v: U64)
    requires Legal(l)
  {
    (Reported(l, v) - v) * 1000 < v
  }

  lemma BucketOf2048(b: nat)
    requires InBucket(512, b, 2048)
    ensures b == 2 && Pow2(b) == 4
  {
    Pow2Apart(2, b);
    assert Pow2(0) == 1 && Pow2(1) == 2 && Pow2(2) == 4;
  }

  lemma ReportOf2048(l: Layout)
    requires ThreeDigits(l) && 2048 < Limit(l)
    ensures Reported(l, 2048) == 2051
  {
    var b := SlotFacts(l, 2048);
    assert l.half == 512;
    BucketOf2048(b);
  }

  lemma SmallWithinTenthPercent(l: Layout, v: U64)
    requires ThreeDigits(l) && 1 <= v < 2048 && v < Limit(l)
    ensures WithinTenthPercent(l, v)
  {
    var b := SlotFacts(l, v);
    assert l.half == 512;
    Pow2Apart(1, b);
    assert b <= 1;
    assert Pow2(0) == 1 && Pow2(1) == 2;
  }

  /** The documented bound of a tenth of a percent at three digits holds for the answers of all tracked samples up
      to m exactly when m < 2048 or nothing from 2048 on is tracked; what holds for all tracked samples is one part
      in 512. */
  lemma TenthPercentHoldsIff(l: Layout, m: U64)
    requires ThreeDigits(l)
    ensures (forall v: U64 :: 1 <= v <= m && v < Limit(l) ==> WithinTenthPercent(l, v)) <==>
            m < 2048 || Limit(l) <= 2048
  {
    if m < 2048 || Limit(l) <= 2048 {
      forall v: U64 | 1 <= v <= m && v < Limit(l) ensures WithinTenthPercent(l, v) {
        SmallWithinTenthPercent(l, v);
      }
    } else {
      ReportOf2048(l);
      assert !WithinTenthPercent(l, 2048);
    }
  }

  // --- adding the counts of two layouts ---

  lemma SecondBucket(h: nat, b: nat)
    requires h >= 1 && InBucket(h, b, 2 * h + 1)
    ensures b == 1
  {
    Pow2Apart(1, b);
    assert b > 1 ==> Pow2(b) * h >= 4 * h;
  }

  lemma HalfOfOdd(h: nat)
    ensures (2 * h + 1) / 2 == h
  {
  }

  lemma IndexPastHalves(a: Layout)
    requires Legal(a) && 2 * a.half + 1 < TWO64
    ensures CountsIndex(a, 2 * a.half + 1) == 2 * a.half
  {
    var b := SlotFacts(a, 2 * a.half + 1);
    SecondBucket(a.half, b);
    assert Pow2(b) == 2;
    HalfOfOdd(a.half);
  }

  lemma IndexOfLinear(b: Layout, v: U64)
    requires Legal(b) && v <= b.mask
    ensures CountsIndex(b, v) == v
  {
    var x := SlotFacts(b, v);
    assert Pow2(0) == 1;
  }

  /** A value that a coarser and a finer layout of the same size put into different slots. */
  lemma CoarserDiffers(a: Layout, b: Layout) returns (v: U64)
    requires Legal(a) && Legal(b) && a.magnitude < b.magnitude && Slots(a) == Slots(b)
    ensures v >= 1 && CountsIndex(a, v) != CountsIndex(b, v) && SlotFor(a, v) != SlotFor(b, v)
  {
    Pow2Monotone(a.magnitude + 1, b.magnitude);
    Pow2Monotone(a.magnitude + 1, 64);
    Pow2Of64();
    v := 2 * a.half + 1;
    IndexPastHalves(a);
    IndexOfLinear(b, v);
    AtLeastTwoHalves(b);
  }

  lemma SameFactor(x: nat, y: nat, h: nat, p: nat)
    requires h >= 1 && x * h == p && y * h == p
    ensures x == y
  {
    ModUnique(p, h, x, 0);
    ModUnique(p, h, y, 0);
  }

  lemma SameLayout(a: Layout, b: Layout)
    requires Legal(a) && Legal(b) && Slots(a) == Slots(b) && a.magnitude == b.magnitude
    ensures a == b
  {
    SameFactor(a.buckets + 1, b.buckets + 1, a.half, Slots(a));
  }

  /** Layouts of equal size count every value in the same slot exactly when they have the same precision,
      which the size check of Merge does not ask. */
  lemma SameSlotsIff(a: Layout, b: Layout)
    requires Legal(a) && Legal(b) && Slots(a) == Slots(b)
    ensures (forall v: U64 :: CountsIndex(a, v) == CountsIndex(b, v)) <==> a.magnitude == b.magnitude
  {
    if a.magnitude < b.magnitude {
      var v := CoarserDiffers(a, b);
    } else if b.magnitude < a.magnitude {
      var v := CoarserDiffers(b, a);
    } else {
      SameLayout(a, b);
    }
  }

  /** Slot by slot, the counts of s under a and those of t under b add up to the counts of both under a. */
  ghost predicate AddUp(a: Layout, b: Layout, s: seq<int>, t: seq<int>)
    requires Legal(a) && Legal(b) && Samples(s) && Samples(t)
  {
    forall i :: 0 <= i < Slots(a) ==> InSlot(a, s, i) + InSlot(b, t, i) == InSlot(a, s + t, i)
  }

  lemma OneSampleDiffers(a: Layout, b: Layout, v: U64)
    requires Legal(a) && Legal(b) && Slots(a) == Slots(b) && v >= 1 && SlotFor(a, v) != SlotFor(b, v)
    ensures !AddUp(a, b, [], [v])
  {
    var i := SlotFor(b, v);
    SlotForInRange(b, v);
    assert [] + [v] == [v];
    InSlotOfOne(b, v, i);
    InSlotOfOne(a, v, i);
  }

  /** What Merge adds up is the histogram of both sample lists, whatever the samples, exactly when the precisions
      are equal. */
  lemma MergeIsSoundIff(a: Layout, b: Layout)
    requires Legal(a) && Legal(b) && Slots(a) == Slots(b)
    ensures (forall s, t :: Samples(s) && Samples(t) ==> AddUp(a, b, s, t)) <==> a.magnitude == b.magnitude
  {
    if a.magnitude == b.magnitude {
      SameLayout(a, b);
      forall s, t | Samples(s) && Samples(t)
        ensures AddUp(a, b, s, t)
      {
        forall i | 0 <= i < Slots(a)
          ensures InSlot(a, s, i) + InSlot(b, t, i) == InSlot(a, s + t, i)
        {
          InSlotOfConcat(a, s, t, i);
        }
      }
    } else {
      var v: U64;
      if a.magnitude < b.magnitude {
        v := CoarserDiffers(a, b);
      } else {
        v := CoarserDiffers(b, a);
      }
      OneSampleDiffers(a, b, v);
      assert Samples([]) && Samples([v]);
    }
  }
}
