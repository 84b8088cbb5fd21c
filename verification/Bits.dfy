/** Machine words as natural numbers: powers of two, shifts, bitwise operators and wrap around. */
module Bits {

  const TWO32: int := 0x1_0000_0000
  const TWO64: int := 0x1_0000_0000_0000_0000

  type U64 = x: int | 0 <= x < TWO64
  type U32 = x: int | 0 <= x < TWO32

  function Add64(a: U64, b: U64): U64 {
    (a + b) % TWO64
  }

  function Sub64(a: U64, b: U64): U64 {
    (a - b) % TWO64
  }

  function Pow2(k: nat): (p: nat)
    ensures p >= 1
  {
    if k == 0 then 1 else 2 * Pow2(k - 1)
  }

  lemma {:induction false} Pow2Sum(a: nat, b: nat)
    ensures Pow2(a + b) == Pow2(a) * Pow2(b)
  {
    if a > 0 {
      Pow2Sum(a - 1, b);
    }
  }

  lemma {:induction false} Pow2Monotone(a: nat, b: nat)
    requires a <= b
    ensures Pow2(a) <= Pow2(b)
  {
    if a < b {
      Pow2Monotone(a, b - 1);
    }
  }

  lemma Pow2Apart(a: nat, b: nat)
    ensures a < b ==> 2 * Pow2(a) <= Pow2(b)
  {
    if a < b {
      Pow2Monotone(a + 1, b);
    }
  }

  lemma Pow2Of32()
    ensures Pow2(32) == TWO32
  {
    assert Pow2(8) == 256;
    Pow2Sum(8, 8);
    Pow2Sum(16, 16);
  }

  lemma Pow2Of64()
    ensures Pow2(64) == TWO64
  {
    Pow2Of32();
    Pow2Sum(32, 32);
  }

  /** The position of the highest set bit. */
  function Log2(v: nat): nat {
    if v <= 1 then 0 else 1 + Log2(v / 2)
  }

  lemma {:induction false} Log2Bounds(v: nat)
    requires v >= 1
    ensures Pow2(Log2(v)) <= v < 2 * Pow2(Log2(v))
  {
    if v > 1 {
      Log2Bounds(v / 2);
    }
  }

  lemma Log2Unique(v: nat, k: nat)
    requires Pow2(k) <= v < 2 * Pow2(k)
    ensures Log2(v) == k
  {
    var n := Log2(v);
    Log2Bounds(v);
    Pow2Apart(n, k);
    Pow2Apart(k, n);
  }

  /** std::countl_zero on a 64 bit word. */
  function CountLeadingZeros(v: U64): int {
    if v == 0 then 64 else 63 - Log2(v)
  }

  function BitAnd(a: nat, b: nat): nat {
    if a == 0 || b == 0 then 0
    else (if a % 2 == 1 && b % 2 == 1 then 1 else 0) + 2 * BitAnd(a / 2, b / 2)
  }

  function BitOr(a: nat, b: nat): nat
    decreases a + b
  {
    if a == 0 then b else if b == 0 then a
    else (if a % 2 == 1 || b % 2 == 1 then 1 else 0) + 2 * BitOr(a / 2, b / 2)
  }

  function BitXor(a: nat, b: nat): nat
    decreases a + b
  {
    if a == 0 then b else if b == 0 then a
    else (if a % 2 == b % 2 then 0 else 1) + 2 * BitXor(a / 2, b / 2)
  }

  /** The low k bits of v. */
  function LowBits(v: nat, k: nat): (r: nat)
    ensures r < Pow2(k)
  {
    if k == 0 then 0 else v % 2 + 2 * LowBits(v / 2, k - 1)
  }

  /** Division with remainder is unique. */
  lemma ModUnique(v: int, p: int, q: int, r: int)
    requires p >= 1 && v == p * q + r && 0 <= r < p
    ensures v / p == q && v % p == r
  {
    var d, m := v / p, v % p;
    SameQuotient(v, p, d, m, q, r);
  }

  lemma SameQuotient(v: int, p: int, d: int, m: int, q: int, r: int)
    requires p >= 1 && v == p * d + m && 0 <= m < p && v == p * q + r && 0 <= r < p
    ensures d == q && m == r
  {
    assert p * (d - q) == p * d - p * q;
    assert p * (q - d) == p * q - p * d;
    if d > q {
      Stretch(d - q, p);
    } else if d < q {
      Stretch(q - d, p);
    }
  }

  lemma Stretch(a: int, p: int)
    requires a >= 1 && p >= 1
    ensures p * a >= p
  {
  }

  lemma DivMod(v: nat, p: nat)
    requires p >= 1
    ensures v == v / p * p + v % p && 0 <= v % p < p
  {
  }

  lemma DoubleMod(v: nat, p: nat, q: nat, r: nat)
    requires r < p && v / 2 == p * q + r
    ensures v % (2 * p) == v % 2 + 2 * r
  {
    ModUnique(v, 2 * p, q, v % 2 + 2 * r);
  }

  lemma ModOfDouble(v: nat, p: nat)
    requires p >= 1
    ensures v % (2 * p) == v % 2 + 2 * (v / 2 % p)
  {
    var h := v / 2;
    var q, r := h / p, h % p;
    assert h == p * q + r;
    DoubleMod(v, p, q, r);
  }

  lemma {:induction false} LowBitsMod(v: nat, k: nat)
    ensures LowBits(v, k) == v % Pow2(k)
  {
    if k > 0 {
      LowBitsMod(v / 2, k - 1);
      ModOfDouble(v, Pow2(k - 1));
    }
  }

  lemma {:induction false} LowBitsOfZero(k: nat)
    ensures LowBits(0, k) == 0
  {
    if k > 0 {
      LowBitsOfZero(k - 1);
    }
  }

  lemma MaskHalves(k: nat)
    requires k > 0
    ensures (Pow2(k) - 1) / 2 == Pow2(k - 1) - 1 && (Pow2(k) - 1) % 2 == 1 && Pow2(k) > 1
  {
    OddHalves(Pow2(k) - 1, Pow2(k - 1));
  }

  lemma OddHalves(n: nat, p: nat)
    requires p >= 1 && n == 2 * p - 1
    ensures n / 2 == p - 1 && n % 2 == 1
  {
  }

  lemma AndOdd(a: nat, b: nat)
    requires a > 0 && b > 0 && b % 2 == 1
    ensures BitAnd(a, b) == a % 2 + 2 * BitAnd(a / 2, b / 2)
  {
  }

  lemma {:induction false} AndMaskBits(v: nat, k: nat)
    ensures BitAnd(v, Pow2(k) - 1) == LowBits(v, k)
  {
    if v == 0 {
      LowBitsOfZero(k);
    } else if k > 0 {
      AndMaskBits(v / 2, k - 1);
      MaskHalves(k);
      AndOdd(v, Pow2(k) - 1);
    }
  }

  /** Masking with a power of two less one is reduction modulo that power. */
  lemma AndMask(v: nat, k: nat)
    ensures BitAnd(v, Pow2(k) - 1) == v % Pow2(k)
  {
    AndMaskBits(v, k);
    LowBitsMod(v, k);
  }

  lemma {:induction false} OrMaskBits(v: nat, k: nat)
    ensures BitOr(v, Pow2(k) - 1) == v - LowBits(v, k) + Pow2(k) - 1
  {
    if v == 0 {
      LowBitsOfZero(k);
    } else if k > 0 {
      OrMaskBits(v / 2, k - 1);
      MaskHalves(k);
    }
  }

  /** Setting the low k bits. */
  lemma OrMask(v: nat, k: nat)
    ensures BitOr(v, Pow2(k) - 1) == v - v % Pow2(k) + Pow2(k) - 1
  {
    OrMaskBits(v, k);
    LowBitsMod(v, k);
  }

  lemma {:induction false} AndNotMaskBits(v: nat, k: nat, n: nat)
    requires k <= n && v < Pow2(n) && Pow2(k) <= Pow2(n)
    ensures BitAnd(v, Pow2(n) - Pow2(k)) == v - LowBits(v, k)
  {
    if k == 0 {
      AndMask(v, n);
      ModUnique(v, Pow2(n), 0, v);
    } else {
      AndNotMaskBits(v / 2, k - 1, n - 1);
      if v == 0 {
        LowBitsOfZero(k);
      }
      if k == n {
        LowBitsMod(v, n);
        ModUnique(v, Pow2(n), 0, v);
      } else {
        Pow2Monotone(k, n - 1);
      }
    }
  }

  /** Clearing the low k bits of a word of n bits. */
  lemma AndNotMask(v: nat, k: nat, n: nat)
    requires k <= n && v < Pow2(n) && Pow2(k) <= Pow2(n)
    ensures BitAnd(v, Pow2(n) - Pow2(k)) == v - v % Pow2(k)
  {
    AndNotMaskBits(v, k, n);
    LowBitsMod(v, k);
  }

  /** src/spsc_ring.cpp:23, on a word. */
  predicate IsPowerOfTwo(v: U32) {
    v != 0 && BitAnd(v, v - 1) == 0
  }

  lemma {:induction false} AndOfNeighbours(v: nat) returns (k: nat)
    requires v >= 1 && BitAnd(v, v - 1) == 0
    ensures v == Pow2(k)
  {
    if v == 1 {
      k := 0;
    } else if v % 2 == 1 {
      AndSelf(v / 2);
    } else {
      k := AndOfNeighbours(v / 2);
      k := k + 1;
    }
  }

  lemma {:induction false} AndSelf(v: nat)
    ensures BitAnd(v, v) == v
  {
    if v > 0 {
      AndSelf(v / 2);
      assert v == v % 2 + 2 * (v / 2);
    }
  }

  lemma TrickFindsExponent(v: U32) returns (k: nat)
    requires IsPowerOfTwo(v)
    ensures k < 32 && v == Pow2(k)
  {
    k := AndOfNeighbours(v);
    if k >= 32 {
      Pow2Of32();
      Pow2Monotone(32, k);
      assert false;
    }
  }

  lemma TrickAccepts(k: nat)
    ensures BitAnd(Pow2(k), Pow2(k) - 1) == 0
  {
    AndMask(Pow2(k), k);
    ModUnique(Pow2(k), Pow2(k), 1, 0);
  }

  /** The bit trick accepts exactly the powers of two below 2^32. */
  lemma PowerOfTwoTrick(v: U32)
    ensures IsPowerOfTwo(v) <==> exists k: nat :: k < 32 && v == Pow2(k)
  {
    if IsPowerOfTwo(v) {
      var k := TrickFindsExponent(v);
    }
    if k: nat :| k < 32 && v == Pow2(k) {
      TrickAccepts(k);
    }
  }
}
