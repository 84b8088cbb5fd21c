/** Ids go out as decimal text and are read into a 64 bit float: which of them come back. */
module Doubles {
  import opened Bits
  import opened Octets
  import opened JsonWriter

  const TWO53: int := 0x20_0000_0000_0000

  function Scaled(m: int, e: nat): int {
    m * Pow2(e)
  }

  /** The integers a 64 bit float holds: 53 bits and a power of two. No id comes near the largest exponent. */
  ghost predicate IsDouble(x: int) {
    exists m, e: nat :: -TWO53 <= m <= TWO53 && Scaled(m, e) == x
  }

  function Distance(x: int, y: int): nat {
    if x < y then y - x else x - y
  }

  /** Correct rounding, ties to either side. */
  ghost predicate RoundsTo(n: int, d: int) {
    IsDouble(d) && forall e :: IsDouble(e) ==> Distance(n, d) <= Distance(n, e)
  }

  lemma SmallIsDouble(n: int)
    requires -TWO53 <= n <= TWO53
    ensures IsDouble(n)
  {
    assert Scaled(n, 0) == n;
  }

  lemma ScaledIsEven(m: int, e: nat)
    requires e > 0
    ensures Scaled(m, e) % 2 == 0
  {
    assert Scaled(m, e) == 2 * (m * Pow2(e - 1));
  }

  lemma FirstGap()
    ensures !IsDouble(TWO53 + 1) && RoundsTo(TWO53 + 1, TWO53)
  {
    if IsDouble(TWO53 + 1) {
      var m, e: nat :| -TWO53 <= m <= TWO53 && Scaled(m, e) == TWO53 + 1;
      if e > 0 {
        ScaledIsEven(m, e);
      }
    }
    SmallIsDouble(TWO53);
  }

  ghost predicate HasDoubleAt(n: int, k: nat) {
    IsDouble(n + k) || IsDouble(n - k)
  }

  lemma {:induction false} NearestFrom(n: int, k: nat) returns (d: int)
    requires k <= Distance(n, 0) && forall i: nat :: i < k ==> !HasDoubleAt(n, i)
    ensures RoundsTo(n, d)
    decreases Distance(n, 0) - k
  {
    if HasDoubleAt(n, k) {
      d := if IsDouble(n + k) then n + k else n - k;
      forall e | IsDouble(e)
        ensures Distance(n, d) <= Distance(n, e)
      {
        assert HasDoubleAt(n, Distance(n, e));
      }
    } else {
      SmallIsDouble(0);
      assert HasDoubleAt(n, Distance(n, 0));
      d := NearestFrom(n, k + 1);
    }
  }

  /** Rounding leaves an integer alone exactly when a float holds it. */
  lemma ExactIff(n: int)
    ensures (forall d :: RoundsTo(n, d) ==> d == n) <==> IsDouble(n)
  {
    var d := NearestFrom(n, 0);
  }

  /** What AsInt makes of the text of a whole number. */
  ghost predicate ReadsAsInt(text: Bytes, d: int) {
    RoundsTo(DecimalValue(text), d)
  }

  /** All ids up to m come back from their decimal text exactly when m is at most 2^53. */
  lemma IdsReadBackIff(m: nat)
    ensures (forall n, d :: Distance(n, 0) <= m && ReadsAsInt(Decimal(n), d) ==> d == n) <==> m <= TWO53
  {
    if m <= TWO53 {
      forall n, d | Distance(n, 0) <= m && ReadsAsInt(Decimal(n), d)
        ensures d == n
      {
        DecimalReadsBack(n);
        SmallIsDouble(n);
        ExactIff(n);
      }
    } else {
      FirstGap();
      DecimalReadsBack(TWO53 + 1);
      assert ReadsAsInt(Decimal(TWO53 + 1), TWO53);
    }
  }

  lemma TwoToThe53()
    ensures Pow2(53) == TWO53
  {
    assert Pow2(9) == 512;
    Pow2Sum(9, 9);
    Pow2Sum(18, 18);
    Pow2Sum(36, 9);
    Pow2Sum(45, 8);
    assert Pow2(8) == 256;
  }
}
