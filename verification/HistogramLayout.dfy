/** The slots of the histogram: how values map to slots and back, by shifts and masks. */
module HistogramLayout {
  import opened Bits

  /** 2^magnitude linear steps in bucket zero, then buckets of half as many steps, each step twice as wide.
      The fields are those the constructor fills in (src/histogram.cpp:39-58). */
  datatype Layout = Layout(magnitude: nat, half: nat, halfMagnitude: nat, mask: nat, leadingZeroBase: nat, buckets: nat)

  ghost predicate Legal(l: Layout) {
    && 1 <= l.magnitude && 1 <= l.buckets && l.magnitude + l.buckets - 1 <= 64
    && l.halfMagnitude == l.magnitude - 1
    && l.half == Pow2(l.halfMagnitude)
    && l.mask == Pow2(l.magnitude) - 1 == 2 * l.half - 1
    && l.leadingZeroBase == 64 - l.magnitude
  }

  function Slots(l: Layout): nat {
    (l.buckets + 1) * l.half
  }

  /** The first value past the last slot. */
  ghost function Limit(l: Layout): nat
    requires Legal(l)
  {
    Pow2(l.halfMagnitude + l.buckets)
  }

  /** src/histogram.cpp:66-68 */
  function BucketIndex(l: Layout, v: U64): int
    requires Legal(l)
  {
    OrMaskFits(v, l.magnitude);
    l.leadingZeroBase - CountLeadingZeros(BitOr(v, l.mask))
  }

  lemma RoundUp(v: nat, p: nat, r: nat)
    requires p >= 1 && v < p * r
    ensures v - v % p + p - 1 < p * r
  {
    var q, m := v / p, v % p;
    assert v == p * q + m;
    assert q >= r ==> p * q >= p * r;
    assert q + 1 <= r ==> p * (q + 1) <= p * r;
  }

  lemma OrMaskFits(v: U64, m: nat)
    requires m <= 64
    ensures BitOr(v, Pow2(m) - 1) < TWO64
  {
    Pow2Of64();
    Pow2Sum(m, 64 - m);
    OrMask(v, m);
    RoundUp(v, Pow2(m), Pow2(64 - m));
  }

  /** src/histogram.cpp:69-78, once the bucket is known */
  function IndexIn(l: Layout, bucket: nat, v: U64): int {
    IndexFrom(bucket, Pow2(l.halfMagnitude), v / Pow2(bucket), l.half)
  }

  function IndexFrom(bucket: int, step: int, sub: int, half: int): int {
    (bucket + 1) * step + (sub - half)
  }

  function CountsIndex(l: Layout, v: U64): int
    requires Legal(l)
  {
    BucketIndexIs(l, v);
    IndexIn(l, BucketIndex(l, v), v)
  }

  /** src/histogram.cpp:81-92 */
  function ValueFromIndex(l: Layout, index: nat): nat
    requires l.half >= 1
  {
    var bucket := index / Pow2(l.halfMagnitude) - 1;
    var sub := BitAnd(index, l.half - 1) + l.half;
    if bucket < 0 then sub - l.half else sub * Pow2(bucket)
  }

  /** src/histogram.cpp:98-101, once the bucket is known */
  function HighestIn(bucket: nat, v: U64): int
    requires bucket <= 64
  {
    var width := Pow2(bucket);
    WordWidth(bucket);
    BitAnd(v, TWO64 - width) + width - 1
  }

  function HighestEquivalent(l: Layout, v: U64): int
    requires Legal(l)
  {
    BucketIndexIs(l, v);
    HighestIn(BucketIndex(l, v), v)
  }

  lemma WordWidth(b: nat)
    requires b <= 64
    ensures Pow2(b) <= TWO64
  {
    Pow2Of64();
    Pow2Monotone(b, 64);
  }

  // --- what the bit tricks compute ---

  /** Bucket zero is linear; bucket b > 0 holds the values from h * 2^b up to 2h * 2^b. */
  predicate InBucket(h: nat, b: nat, v: nat) {
    if b == 0 then v < 2 * h else Pow2(b) * h <= v < Pow2(b) * (2 * h)
  }

  lemma LogOfSubRange(m: nat)
    requires m >= 1
    ensures Pow2(m) - 1 >= 1 && Log2(Pow2(m) - 1) == m - 1
  {
    var v := Pow2(m) - 1;
    assert Pow2(m) == 2 * Pow2(m - 1);
    Log2Unique(v, m - 1);
  }

  lemma LogOfRounded(v: nat, m: nat)
    requires Pow2(m) <= v
    ensures m <= Log2(v) && Log2(v - v % Pow2(m) + Pow2(m) - 1) == Log2(v)
  {
    var k, p := Log2(v), Pow2(m);
    Log2Bounds(v);
    Pow2Apart(k, m);
    Pow2Sum(m, k + 1 - m);
    RoundUp(v, p, Pow2(k + 1 - m));
    assert v % p < p;
    Log2Unique(v - v % p + p - 1, k);
  }

  lemma BucketOfSmall(l: Layout, v: U64)
    requires Legal(l) && v <= l.mask
    ensures BucketIndex(l, v) == 0
  {
    OrMask(v, l.magnitude);
    ModUnique(v, Pow2(l.magnitude), 0, v);
    LogOfSubRange(l.magnitude);
  }

  lemma LogOfOr(v: nat, m: nat)
    requires Pow2(m) <= v
    ensures BitOr(v, Pow2(m) - 1) >= v && Log2(BitOr(v, Pow2(m) - 1)) == Log2(v) >= m
  {
    OrMask(v, m);
    DivMod(v, Pow2(m));
    LogOfRounded(v, m);
  }

  lemma LeadingZeros(w: U64)
    requires w >= 1
    ensures CountLeadingZeros(w) == 63 - Log2(w)
  {
  }

  lemma BucketOfLarge(l: Layout, v: U64)
    requires Legal(l) && v > l.mask
    ensures BucketIndex(l, v) == Log2(v) - l.halfMagnitude >= 1
  {
    OrMaskFits(v, l.magnitude);
    LogOfOr(v, l.magnitude);
    LeadingZeros(BitOr(v, l.mask));
  }

  lemma LogOfWord(v: U64)
    requires v >= 1
    ensures Log2(v) <= 63
  {
    Log2Bounds(v);
    Pow2Of64();
    Pow2Apart(63, 64);
    if Log2(v) > 63 {
      Pow2Monotone(64, Log2(v));
    }
  }

  lemma Commute(h: nat, p: nat, v: nat)
    requires h * p <= v < 2 * (h * p)
    ensures p * h <= v < p * (2 * h)
  {
  }

  lemma InBucketOfLog(k: nat, b: nat, v: nat)
    requires b >= 1 && v >= 1 && Log2(v) == k + b
    ensures InBucket(Pow2(k), b, v)
  {
    Log2Bounds(v);
    Pow2Sum(k, b);
    Commute(Pow2(k), Pow2(b), v);
  }

  /** The leading zero count finds the bucket. */
  lemma BucketIndexIs(l: Layout, v: U64)
    requires Legal(l)
    ensures 0 <= BucketIndex(l, v) <= 64 - l.magnitude
    ensures InBucket(l.half, BucketIndex(l, v), v)
  {
    if v <= l.mask {
      BucketOfSmall(l, v);
    } else {
      BucketOfLarge(l, v);
      LogOfWord(v);
      InBucketOfLog(l.halfMagnitude, Log2(v) - l.halfMagnitude, v);
    }
  }

  // --- the slots for any half count h ---

  lemma Distribute(b: int, h: int, q: int)
    ensures (b + 1) * h + (q - h) == b * h + q
    ensures b >= 0 && h >= 0 && q >= 0 ==> b * h + q >= 0
  {
  }

  lemma DivRange(v: nat, p: nat, lo: nat, hi: nat)
    requires p >= 1 && p * lo <= v < p * hi
    ensures lo <= v / p < hi
  {
    DivMod(v, p);
    QuotientBetween(v, p, v / p, v % p, lo, hi);
  }

  lemma QuotientBetween(v: nat, p: nat, q: nat, r: nat, lo: nat, hi: nat)
    requires v == p * q + r && r < p && p * lo <= v < p * hi
    ensures lo <= q < hi
  {
    if q >= hi {
      TimesMonotone(p, hi, q);
    } else if q < lo {
      TimesMonotone(p, q + 1, lo);
    }
  }

  lemma TimesMonotone(p: nat, x: nat, y: nat)
    requires x <= y
    ensures p * x <= p * y
  {
    assert p * (y - x) >= 0;
  }

  /** The quotient by the slot width lies in the linear range of the bucket. */
  lemma QuotientRange(h: nat, b: nat, v: nat)
    requires h >= 1 && InBucket(h, b, v)
    ensures v / Pow2(b) < 2 * h && (b > 0 ==> h <= v / Pow2(b))
  {
    if b > 0 {
      DivRange(v, Pow2(b), h, 2 * h);
    }
  }

  /** A slot number taken apart again. */
  lemma IndexApart(h: nat, b: nat, q: nat)
    requires h >= 1 && q < 2 * h && (b > 0 ==> h <= q)
    ensures q < h ==> (b * h + q) / h == 0 && (b * h + q) % h == q
    ensures h <= q ==> (b * h + q) / h == b + 1 && (b * h + q) % h == q - h
  {
    if h <= q {
      assert b * h + q == h * (b + 1) + (q - h);
      ModUnique(b * h + q, h, b + 1, q - h);
    } else {
      ModUnique(q, h, 0, q);
    }
  }

  function ValueOf(h: nat, bucket: int, low: nat): nat {
    if bucket < 0 then low else (low + h) * Pow2(bucket)
  }

  /** The least value of slot i when the half count is h. */
  function LeastValue(h: nat, i: nat): nat
    requires h >= 1
  {
    ValueOf(h, i / h - 1, i % h)
  }

  lemma LeastValueIs(h: nat, b: nat, q: nat, i: nat)
    requires h >= 1 && q < 2 * h && (b > 0 ==> h <= q) && i == b * h + q
    ensures LeastValue(h, i) == q * Pow2(b)
  {
    IndexApart(h, b, q);
  }

  /** Every slot number names a bucket and a step in it. */
  lemma SlotParts(h: nat, i: nat) returns (b: nat, q: nat)
    requires h >= 1
    ensures i == b * h + q && q < 2 * h && (b > 0 ==> h <= q)
  {
    if i < 2 * h {
      b, q := 0, i;
    } else {
      var d, r := i / h, i % h;
      assert i == h * d + r;
      assert d < 2 ==> h * d <= h;
      b, q := d - 1, r + h;
      Distribute(b, h, q);
    }
  }

  lemma DoubleWidth(h: nat, p: nat)
    requires h >= 1
    ensures h * (2 * p) == (2 * h - 1) * p + p
  {
  }

  /** The next slot starts right after this one ends. */
  lemma NextLeastValue(h: nat, b: nat, q: nat, i: nat)
    requires h >= 1 && q < 2 * h && (b > 0 ==> h <= q) && i == b * h + q
    ensures LeastValue(h, i + 1) == q * Pow2(b) + Pow2(b)
  {
    if q + 1 < 2 * h {
      LeastValueIs(h, b, q + 1, i + 1);
      Distribute(q, Pow2(b), Pow2(b));
    } else {
      Distribute(b, h, 2 * h);
      LeastValueIs(h, b + 1, h, i + 1);
      DoubleWidth(h, Pow2(b));
    }
  }

  /** The slot a bucketed value falls into: from its quotient by the slot width up to the next multiple. */
  lemma SlotOfValue(h: nat, b: nat, v: nat, i: nat)
    requires h >= 1 && InBucket(h, b, v) && i == b * h + v / Pow2(b)
    ensures LeastValue(h, i) == v - v % Pow2(b) <= v < LeastValue(h, i + 1)
    ensures LeastValue(h, i + 1) == v - v % Pow2(b) + Pow2(b)
  {
    QuotientRange(h, b, v);
    DivMod(v, Pow2(b));
    LeastValueIs(h, b, v / Pow2(b), i);
    NextLeastValue(h, b, v / Pow2(b), i);
  }

  lemma {:induction false} LeastValueMonotone(h: nat, i: nat, j: nat)
    requires h >= 1 && i <= j
    ensures LeastValue(h, i) + (j - i) <= LeastValue(h, j)
  {
    if i < j {
      LeastValueMonotone(h, i, j - 1);
      var b, q := SlotParts(h, j - 1);
      LeastValueIs(h, b, q, j - 1);
      NextLeastValue(h, b, q, j - 1);
    }
  }

  lemma LeastValueOfEnd(h: nat, buckets: nat, i: nat)
    requires h >= 1 && i == (buckets + 1) * h
    ensures LeastValue(h, i) == h * Pow2(buckets)
  {
    Distribute(buckets, h, h);
    LeastValueIs(h, buckets, h, i);
  }

  lemma ErrorInBucket(h: nat, b: nat, v: nat)
    requires h >= 1 && InBucket(h, b, v)
    ensures v % Pow2(b) < Pow2(b)
    ensures v > 0 ==> (Pow2(b) - 1 - v % Pow2(b)) * h < v
  {
    var p := Pow2(b);
    var r := v % p;
    assert 0 <= r < p;
    if b > 0 {
      assert (p - 1 - r) * h <= (p - 1) * h;
      Distribute(p - 1, h, h);
    }
  }

  // --- the slots of a layout ---

  lemma ValueFromIndexIs(l: Layout, i: nat)
    requires Legal(l)
    ensures ValueFromIndex(l, i) == LeastValue(l.half, i)
  {
    AndMask(i, l.halfMagnitude);
  }

  lemma LimitIs(l: Layout)
    requires Legal(l)
    ensures LeastValue(l.half, Slots(l)) == Limit(l) <= TWO64
  {
    LeastValueOfEnd(l.half, l.buckets, Slots(l));
    Pow2Sum(l.halfMagnitude, l.buckets);
    WordWidth(l.halfMagnitude + l.buckets);
  }

  lemma IndexFromIs(b: nat, h: nat, q: nat)
    ensures IndexFrom(b, h, q, h) == b * h + q >= 0
  {
    Distribute(b, h, q);
  }

  lemma IndexInIs(l: Layout, b: nat, v: U64)
    requires Legal(l)
    ensures IndexIn(l, b, v) == b * l.half + v / Pow2(b) >= 0
  {
    DivMod(v, Pow2(b));
    IndexFromIs(b, l.half, v / Pow2(b));
  }

  lemma HighestInIs(b: nat, v: U64)
    requires b <= 64
    ensures HighestIn(b, v) == v - v % Pow2(b) + Pow2(b) - 1
  {
    WordWidth(b);
    Pow2Of64();
    AndNotMask(v, b, 64);
  }

  lemma SlotFacts(l: Layout, v: U64) returns (b: nat)
    requires Legal(l)
    ensures b <= 64 && InBucket(l.half, b, v) && (v <= l.mask ==> b == 0)
    ensures CountsIndex(l, v) == b * l.half + v / Pow2(b) >= 0
    ensures HighestEquivalent(l, v) == v - v % Pow2(b) + Pow2(b) - 1
  {
    BucketIndexIs(l, v);
    b := BucketIndex(l, v);
    IndexInIs(l, b, v);
    HighestInIs(b, v);
    if v <= l.mask {
      BucketOfSmall(l, v);
    }
  }

  /** A value lies in the slot it maps to, and what is reported for it is the last value of that slot. */
  lemma SlotHolds(l: Layout, v: U64)
    requires Legal(l)
    ensures CountsIndex(l, v) >= 0
    ensures LeastValue(l.half, CountsIndex(l, v)) <= v < LeastValue(l.half, CountsIndex(l, v) + 1)
    ensures HighestEquivalent(l, v) + 1 == LeastValue(l.half, CountsIndex(l, v) + 1)
  {
    var b := SlotFacts(l, v);
    SlotOfValue(l.half, b, v, CountsIndex(l, v));
  }

  /** A slot holds exactly the values from its least value up to the next slot's: slots partition the range. */
  lemma SlotIsInterval(l: Layout, v: U64, i: nat)
    requires Legal(l)
    ensures CountsIndex(l, v) == i <==> ValueFromIndex(l, i) <= v < ValueFromIndex(l, i + 1)
  {
    SlotHolds(l, v);
    ValueFromIndexIs(l, i);
    ValueFromIndexIs(l, i + 1);
    var j := CountsIndex(l, v);
    if j < i {
      LeastValueMonotone(l.half, j + 1, i);
    } else if i < j {
      LeastValueMonotone(l.half, i + 1, j);
    }
  }

  /** Greater values never map to lesser slots. */
  lemma IndexMonotone(l: Layout, v: U64, w: U64)
    requires Legal(l) && v <= w
    ensures CountsIndex(l, v) <= CountsIndex(l, w)
  {
    SlotHolds(l, v);
    SlotHolds(l, w);
    var i, j := CountsIndex(l, v), CountsIndex(l, w);
    if j < i {
      LeastValueMonotone(l.half, j + 1, i);
    }
  }

  /** The two maps are inverse on every slot. */
  lemma MapsAreInverse(l: Layout, i: nat)
    requires Legal(l) && i < Slots(l)
    ensures ValueFromIndex(l, i) < Limit(l) <= TWO64
    ensures CountsIndex(l, ValueFromIndex(l, i)) == i
  {
    ValueFromIndexIs(l, i);
    LeastValueMonotone(l.half, i, Slots(l));
    LimitIs(l);
    ValueFromIndexIs(l, i + 1);
    LeastValueMonotone(l.half, i, i + 1);
    SlotIsInterval(l, ValueFromIndex(l, i), i);
  }

  /** Exactly the values below the limit have a slot of their own. */
  lemma TrackedBelowLimit(l: Layout, v: U64)
    requires Legal(l)
    ensures CountsIndex(l, v) >= 0
    ensures CountsIndex(l, v) < Slots(l) <==> v < Limit(l)
  {
    SlotHolds(l, v);
    LimitIs(l);
    var i := CountsIndex(l, v);
    if i < Slots(l) {
      LeastValueMonotone(l.half, i + 1, Slots(l));
    } else {
      LeastValueMonotone(l.half, Slots(l), i);
    }
  }

  /** The reported top of a slot: never below the value, exact in bucket zero, within one part in half_count above
      it. */
  lemma ReportedError(l: Layout, v: U64)
    requires Legal(l)
    ensures v <= HighestEquivalent(l, v)
    ensures v <= l.mask ==> HighestEquivalent(l, v) == v
    ensures v > 0 ==> (HighestEquivalent(l, v) - v) * l.half < v
  {
    var b := SlotFacts(l, v);
    ErrorInBucket(l.half, b, v);
  }
}
