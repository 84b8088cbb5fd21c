/** The record checksum: what FNV-1a over the bytes before it can and cannot miss. */
module Checksum {
  import opened Octets
  import opened Bits

  const BASIS: U32 := 2166136261
  const PRIME: U32 := 16777619
  /** The inverse of the prime modulo 2^32. */
  const INVERSE: U32 := 899433627

  const COVERAGE: nat := 188
  const RECORD_SIZE: nat := 192

  type Record = r: Bytes | |r| == 192 witness seq(192, i => 0)

  // --- exclusive or ---

  lemma {:induction false} XorUndone(a: nat, b: nat)
    ensures BitXor(BitXor(a, b), b) == a
    decreases a + b
  {
    if a != 0 && b != 0 {
      XorUndone(a / 2, b / 2);
      var x, y := BitXor(a, b), BitXor(a / 2, b / 2);
      assert x / 2 == y && x % 2 == if a % 2 == b % 2 then 0 else 1;
      if x == 0 {
        assert b == a;
      } else {
        assert BitXor(x, b) == (if x % 2 == b % 2 then 0 else 1) + 2 * BitXor(y, b / 2);
      }
    } else if b != 0 {
      XorSelf(b);
    }
  }

  lemma {:induction false} XorSelf(b: nat)
    ensures BitXor(b, b) == 0
  {
    if b != 0 {
      XorSelf(b / 2);
    }
  }

  lemma {:induction false} XorSwap(a: nat, b: nat)
    ensures BitXor(a, b) == BitXor(b, a)
    decreases a + b
  {
    if a != 0 && b != 0 {
      XorSwap(a / 2, b / 2);
    }
  }

  lemma {:induction false} XorFits(a: nat, b: nat, k: nat)
    requires a < Pow2(k) && b < Pow2(k)
    ensures BitXor(a, b) < Pow2(k)
    decreases k
  {
    if a != 0 && b != 0 {
      XorFits(a / 2, b / 2, k - 1);
    }
  }

  // --- the hash ---

  /** One round: the byte goes into the low bits, then a multiplication that wraps. */
  function Step(h: U32, b: Byte): (r: U32) {
    BitXor(h, b) * PRIME % TWO32
  }

  function Hash(s: Bytes): U32 {
    if s == [] then BASIS else Step(Hash(s[..|s| - 1]), s[|s| - 1])
  }

  lemma TimesPrime(x: nat, r: nat)
    requires x < TWO32 && r == x * PRIME % TWO32
    ensures r * INVERSE % TWO32 == x
  {
    var q := x * PRIME / TWO32;
    var c := (PRIME * INVERSE - 1) / TWO32;
    assert PRIME * INVERSE == c * TWO32 + 1;
    assert x * PRIME == q * TWO32 + r;
    assert r * INVERSE == x * (PRIME * INVERSE) - q * TWO32 * INVERSE;
    ModUnique(r * INVERSE, TWO32, x * c - q * INVERSE, x);
  }

  lemma StepUndone(h: U32, b: Byte)
    ensures BitXor(Step(h, b) * INVERSE % TWO32, b) == h
  {
    Pow2Of32();
    XorFits(h, b, 32);
    TimesPrime(BitXor(h, b), Step(h, b));
    XorUndone(h, b);
  }

  /** A round loses nothing: neither the state nor the byte that went in. */
  lemma StepIsInjective(h: U32, b: Byte, h2: U32, b2: Byte)
    requires Step(h, b) == Step(h2, b2)
    ensures h == h2 <==> b == b2
  {
    StepUndone(h, b);
    StepUndone(h2, b2);
    if h == h2 {
      Pow2Of32();
      XorFits(h, b, 32);
      XorFits(h, b2, 32);
      TimesPrime(BitXor(h, b), Step(h, b));
      TimesPrime(BitXor(h, b2), Step(h, b2));
      XorSwap(h, b);
      XorSwap(h, b2);
      XorUndone(b, h);
      XorUndone(b2, h);
    }
  }

  /** The same bytes after two different states give different states, so a difference is never lost again. */
  lemma {:induction false} DifferenceStays(s: Bytes, t: Bytes, k: nat)
    requires |s| == |t| && k < |s| && s[k] != t[k]
    requires forall i :: 0 <= i < |s| && i != k ==> s[i] == t[i]
    ensures Hash(s) != Hash(t)
  {
    var n := |s| - 1;
    if k == n {
      assert s[..n] == t[..n];
      if Hash(s) == Hash(t) {
        StepIsInjective(Hash(s[..n]), s[n], Hash(t[..n]), t[n]);
      }
    } else {
      DifferenceStays(s[..n], t[..n], k);
      if Hash(s) == Hash(t) {
        StepIsInjective(Hash(s[..n]), s[n], Hash(t[..n]), t[n]);
      }
    }
  }

  method Fnv1a(data: Bytes) returns (h: U32)
    ensures h == Hash(data)
  {
    h := BASIS;
    var i := 0;
    while i < |data|
      invariant 0 <= i <= |data| && h == Hash(data[..i])
    {
      assert data[..i + 1][..i] == data[..i];
      Pow2Of32();
      XorFits(h, data[i], 32);
      h := BitXor(h, data[i]);
      h := h * PRIME % TWO32;
      i := i + 1;
    }
    assert data[..i] == data;
  }

  // --- the field in the record ---

  /** The four bytes of a word, lowest first. */
  function WordBytes(v: U32): (s: Bytes)
    ensures |s| == 4
  {
    [v % 256, v / 256 % 256, v / 256 / 256 % 256, v / 256 / 256 / 256]
  }

  function BytesWord(s: Bytes): (v: U32)
    requires |s| == 4
  {
    s[0] + 256 * (s[1] + 256 * (s[2] + 256 * s[3] as int))
  }

  /** The lowest byte comes first. */
  lemma LowestFirst()
    ensures WordBytes(0x0403_0201) == [1, 2, 3, 4] && BytesWord([1, 2, 3, 4]) == 0x0403_0201
  {
  }

  lemma WordReadsBack(v: U32)
    ensures BytesWord(WordBytes(v)) == v
  {
  }

  lemma SameDigits(a: Byte, x: int, b: Byte, y: int)
    requires a + 256 * x == b + 256 * y
    ensures a == b && x == y
  {
  }

  lemma BytesWordIsInjective(s: Bytes, t: Bytes)
    requires |s| == 4 && |t| == 4 && BytesWord(s) == BytesWord(t)
    ensures s == t
  {
    SameDigits(s[0], s[1] + 256 * (s[2] + 256 * s[3] as int), t[0], t[1] + 256 * (t[2] + 256 * t[3] as int));
    SameDigits(s[1], s[2] + 256 * s[3] as int, t[1], t[2] + 256 * t[3] as int);
    SameDigits(s[2], s[3], t[2], t[3]);
  }

  predicate Verifies(r: Record) {
    BytesWord(r[COVERAGE..]) == Hash(r[..COVERAGE])
  }

  method VerifyChecksum(r: Record) returns (ok: bool)
    ensures ok == Verifies(r)
  {
    var h := Fnv1a(r[..COVERAGE]);
    ok := BytesWord(r[COVERAGE..]) == h;
  }

  /** Writes the checksum field in place and nothing else. */
  method StampChecksum(a: array<Byte>)
    requires a.Length == RECORD_SIZE
    modifies a
    ensures a[..COVERAGE] == old(a[..COVERAGE])
    ensures Verifies(a[..])
  {
    var h := Fnv1a(a[..COVERAGE]);
    var w := WordBytes(h);
    a[COVERAGE], a[COVERAGE + 1], a[COVERAGE + 2], a[COVERAGE + 3] := w[0], w[1], w[2], w[3];
    assert a[..][..COVERAGE] == old(a[..COVERAGE]);
    assert a[..][COVERAGE..] == w;
    WordReadsBack(h);
  }

  /** A verified record stays verified under a change of one byte only if the byte did not change,
      wherever in the record it is, the checksum field included. */
  lemma OneByteIsCaught(r: Record, i: nat, b: Byte)
    requires Verifies(r) && i < RECORD_SIZE
    ensures Verifies(r[i := b]) <==> b == r[i]
  {
    var c := r[i := b];
    if b == r[i] {
      assert c == r;
    } else if i < COVERAGE {
      assert c[COVERAGE..] == r[COVERAGE..];
      DifferenceStays(r[..COVERAGE], c[..COVERAGE], i);
    } else {
      assert c[..COVERAGE] == r[..COVERAGE];
      assert c[COVERAGE..][i - COVERAGE] == b && r[COVERAGE..][i - COVERAGE] == r[i];
      if Verifies(c) {
        BytesWordIsInjective(c[COVERAGE..], r[COVERAGE..]);
      }
    }
  }

  /** Two records whose covered bytes differ in one place never carry the same checksum. */
  lemma OneByteChangesChecksum(r: Record, t: Record, k: nat)
    requires Verifies(r) && Verifies(t) && k < COVERAGE && r[k] != t[k]
    requires forall i :: 0 <= i < COVERAGE && i != k ==> r[i] == t[i]
    ensures r[COVERAGE..] != t[COVERAGE..]
  {
    DifferenceStays(r[..COVERAGE], t[..COVERAGE], k);
  }

  // --- known hashes ---

  /** Bit by bit, from where the byte has ended. */
  lemma XorOfA()
    ensures BitXor(0x811C_9DC5, 97) == 0x811C_9DA4
  {
    assert BitXor(16922939, 0) == 16922939;
    assert BitXor(33845879, 1) == 33845878;
    assert BitXor(67691758, 3) == 67691757;
    assert BitXor(135383516, 6) == 135383514;
    assert BitXor(270767032, 12) == 270767028;
    assert BitXor(541534065, 24) == 541534057;
    assert BitXor(1083068130, 48) == 1083068114;
  }

  lemma StepOfA()
    ensures Step(BASIS, 97) == 0xE40C_292C
  {
    XorOfA();
    ModUnique(0x811C_9DA4 * PRIME, TWO32, 8461672, 0xE40C_292C);
  }

  lemma HashOfOne(b: Byte)
    ensures Hash([b]) == Step(BASIS, b)
  {
    assert [b][..0] == [];
  }

  /** The published values of 32 bit FNV-1a for the empty text and for "a". */
  lemma KnownHashes()
    ensures Hash([]) == 0x811C_9DC5
    ensures Hash(Ascii("a")) == 0xE40C_292C
  {
    HashOfOne(97);
    StepOfA();
    assert Ascii("a") == [97];
  }
}
