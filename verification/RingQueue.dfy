/** The ring's operations as written, when nothing runs beside them: an exact bounded queue. */
module RingQueue {
  import opened Bits
  import opened RingProtocol
  import opened RingProofs

  lemma SlotIndex(taken: nat, i: U64, capacity: Capacity)
    ensures BitAnd(Add64(Wrap(taken), i), capacity - 1) == (taken + i) % capacity
  {
    assert Wrap(i) == i;
    WrapAdd(taken, i);
    WrapSlot(taken + i, capacity);
  }

  /** With room in the ring, the slot of the next record holds none that waits. */
  lemma NextSlotIsFree(taken: nat, n: nat, capacity: Capacity)
    requires taken <= n < taken + capacity
    ensures forall i :: taken <= i < n ==> i % capacity != n % capacity
  {
    forall i | taken <= i < n
      ensures i % capacity != n % capacity
    {
      if i % capacity == n % capacity {
        SameSlot(i, n, capacity);
      }
    }
  }

  lemma AddZero(t: U64)
    ensures Add64(t, 0) == t
  {
  }

  /** The shared header and the slot array. */
  lemma TakenWraps(taken: nat, n: U64)
    ensures Add64(Wrap(taken), n) == Wrap(taken + n)
  {
    assert Wrap(n) == n;
    WrapAdd(taken, n);
  }

  class Ring {
    const capacity: Capacity
    const slots: array<Record>
    var head: U64
    var tail: U64
    var pushDropped: U64

    ghost var accepted: seq<Record>  // every record ever pushed
    ghost var taken: nat             // how many of them were popped

    ghost predicate Valid()
      reads this, slots
    {
      && slots.Length == capacity
      && taken <= |accepted| <= taken + capacity
      && head == Wrap(|accepted|) && tail == Wrap(taken)
      && forall i :: taken <= i < |accepted| ==> slots[i % capacity] == accepted[i]
    }

    lemma HoldsAt(i: nat)
      requires Valid() && taken <= i < |accepted|
      ensures slots[i % capacity] == accepted[i] && accepted[i] == Contents()[i - taken]
    {
    }

    ghost function Contents(): seq<Record>
      reads this
      requires taken <= |accepted|
    {
      accepted[taken..]
    }

    constructor (capacity: Capacity)
      ensures Valid() && fresh(slots) && this.capacity == capacity
      ensures accepted == [] && Contents() == [] && pushDropped == 0
    {
      var blank: Record := seq(RECORD_WORDS, i => 0);
      this.capacity := capacity;
      this.slots := new Record[capacity]((i: nat) => blank);
      head, tail, pushDropped := 0, 0, 0;
      accepted, taken := [], 0;
    }

    method PendingCount() returns (n: U64)
      requires Valid()
      ensures n == |Contents()|
    {
      n := Sub64(head, tail);
      WrapDistance(|accepted|, taken);
    }
  }

  class RingProducer {
    const ring: Ring
    const mask: nat
    var cachedTail: U64
    ghost var cachedCount: nat

    ghost predicate Valid()
      reads this, ring, ring.slots
    {
      && ring.Valid() && mask == ring.capacity - 1
      && cachedTail == Wrap(cachedCount)
      && |ring.accepted| - ring.capacity <= cachedCount <= ring.taken
    }

    constructor (ring: Ring)
      requires ring.Valid()
      ensures Valid() && this.ring == ring
    {
      this.ring := ring;
      mask := ring.capacity - 1;
      cachedTail := ring.tail;
      cachedCount := ring.taken;
    }

    lemma FullTestIs()
      requires Valid()
      ensures Sub64(ring.head, cachedTail) >= mask + 1 <==> |ring.accepted| - cachedCount >= ring.capacity
    {
      WrapDistance(|ring.accepted|, cachedCount);
    }

    /** Tests the cached tail, and a fresh one only when it shows no room. */
    method LooksFull() returns (full: bool)
      requires Valid()
      modifies this`cachedTail, this`cachedCount
      ensures Valid() && full == (|ring.Contents()| >= ring.capacity)
      ensures full == (|ring.accepted| - cachedCount >= ring.capacity)
    {
      FullTestIs();
      full := Sub64(ring.head, cachedTail) >= mask + 1;
      if full {
        cachedTail := ring.tail;
        cachedCount := ring.taken;
        FullTestIs();
        full := Sub64(ring.head, cachedTail) >= mask + 1;
      }
    }

    /** Writes the record into its slot and lets the consumer see it. */
    method Store(rec: Record)
      requires Valid() && |ring.accepted| - cachedCount < ring.capacity
      modifies ring`head, ring`accepted, ring.slots
      ensures Valid() && ring.accepted == old(ring.accepted) + [rec]
    {
      ghost var n := |ring.accepted|;
      WrapSlot(n, ring.capacity);
      NextSlotIsFree(ring.taken, n, ring.capacity);
      ring.slots[BitAnd(ring.head, mask)] := rec;
      ring.head := Add64(ring.head, 1);
      ring.accepted := ring.accepted + [rec];
      WrapAdd(n, 1);
    }

    /** Stores the record exactly when there is room, and counts a drop otherwise. */
    method TryPush(rec: Record) returns (ok: bool)
      requires Valid()
      modifies this`cachedTail, this`cachedCount, ring`head, ring`accepted, ring`pushDropped, ring.slots
      ensures Valid()
      ensures ok <==> |old(ring.Contents())| < ring.capacity
      ensures ring.Contents() == if ok then old(ring.Contents()) + [rec] else old(ring.Contents())
      ensures ring.accepted == if ok then old(ring.accepted) + [rec] else old(ring.accepted)
      ensures ring.pushDropped == if ok then old(ring.pushDropped) else Add64(old(ring.pushDropped), 1)
    {
      var full := LooksFull();
      if full {
        ring.pushDropped := Add64(ring.pushDropped, 1);
        return false;
      }
      Store(rec);
      return true;
    }
  }

  class RingConsumer {
    const ring: Ring
    const mask: nat
    var cachedHead: U64
    ghost var cachedCount: nat

    ghost predicate Valid()
      reads this, ring, ring.slots
    {
      && ring.Valid() && mask == ring.capacity - 1
      && cachedHead == Wrap(cachedCount)
      && ring.taken <= cachedCount <= |ring.accepted|
    }

    constructor (ring: Ring)
      requires ring.Valid()
      ensures Valid() && this.ring == ring
    {
      this.ring := ring;
      mask := ring.capacity - 1;
      cachedHead := ring.head;
      cachedCount := |ring.accepted|;
    }

    /** The slot of the i-th waiting record. */
    lemma SlotOf(i: U64)
      requires Valid() && i < |ring.Contents()|
      ensures BitAnd(Add64(ring.tail, i), mask) < ring.slots.Length
      ensures ring.slots[BitAnd(Add64(ring.tail, i), mask)] == ring.Contents()[i]
    {
      SlotIndex(ring.taken, i, ring.capacity);
      ring.HoldsAt(ring.taken + i);
    }

    lemma EmptyTestIs()
      requires Valid()
      ensures ring.tail == cachedHead <==> ring.taken == cachedCount
      ensures Sub64(cachedHead, ring.tail) == cachedCount - ring.taken
    {
      WrapDistance(cachedCount, ring.taken);
    }

    /** Tests the cached head and pays for a fresh one only when it shows nothing. */
    method LooksEmpty() returns (empty: bool)
      requires Valid()
      modifies this`cachedHead, this`cachedCount
      ensures Valid()
      ensures empty <==> ring.Contents() == []
      ensures !empty ==> 1 <= Sub64(cachedHead, ring.tail) <= |ring.Contents()|
    {
      EmptyTestIs();
      if ring.tail == cachedHead {
        cachedHead := ring.head;
        cachedCount := |ring.accepted|;
        EmptyTestIs();
        return ring.tail == cachedHead;
      }
      return false;
    }

    /** Gives the n oldest slots back. */
    method Release(n: U64)
      requires Valid() && n <= Sub64(cachedHead, ring.tail)
      modifies ring`tail, ring`taken
      ensures Valid() && n <= |old(ring.Contents())| && ring.Contents() == old(ring.Contents())[n..]
    {
      EmptyTestIs();
      TakenWraps(ring.taken, n);
      ring.tail := Add64(ring.tail, n);
      ring.taken := ring.taken + n;
    }

    /** Copies the oldest record out of its slot. */
    method Front() returns (out: Record)
      requires Valid() && ring.Contents() != []
      ensures out == ring.Contents()[0]
    {
      AddZero(ring.tail);
      SlotOf(0);
      out := ring.slots[BitAnd(ring.tail, mask)];
    }

    /** Takes the oldest record, failing exactly when there is none. */
    method TryPop() returns (ok: bool, out: Record)
      requires Valid()
      modifies this`cachedHead, this`cachedCount, ring`tail, ring`taken
      ensures Valid()
      ensures ok <==> old(ring.Contents()) != []
      ensures if ok then [out] + ring.Contents() == old(ring.Contents()) else ring.Contents() == []
    {
      out := seq(RECORD_WORDS, i => 0);
      var empty := LooksEmpty();
      ok := !empty;
      if ok {
        out := Front();
        Release(1);
      }
    }

    /** The copying loop of PopBatch. */
    method CopyOut(out: array<Record>, n: nat)
      requires Valid() && n <= out.Length && out != ring.slots && n <= |ring.Contents()|
      modifies out
      ensures Valid() && ring.Contents() == old(ring.Contents())
      ensures out[..n] == ring.Contents()[..n] && out[n..] == old(out[n..])
    {
      ghost var waiting := ring.Contents();
      var i := 0;
      while i < n
        modifies out
        invariant 0 <= i <= n && Valid() && ring.Contents() == waiting
        invariant forall k :: 0 <= k < i ==> out[k] == waiting[k]
        invariant out[n..] == old(out[n..])
      {
        assert i < TWO64;
        SlotOf(i);
        out[i] := ring.slots[BitAnd(Add64(ring.tail, i), mask)];
        i := i + 1;
      }
    }

    /** Takes as many of the oldest records as it may, in order; none only if it may take none or there are none. */
    method PopBatch(out: array<Record>, max: nat) returns (n: nat)
      requires Valid() && max <= out.Length && out != ring.slots
      modifies this`cachedHead, this`cachedCount, ring`tail, ring`taken, out
      ensures Valid()
      ensures n <= max && out[..n] + ring.Contents() == old(ring.Contents())
      ensures n == 0 <==> max == 0 || old(ring.Contents()) == []
      ensures out[n..] == old(out[n..])
    {
      if max == 0 {
        return 0;
      }
      var empty := LooksEmpty();
      if empty {
        return 0;
      }
      n := Sub64(cachedHead, ring.tail);
      if n > max {
        n := max;
      }
      CopyOut(out, n);
      Release(n);
    }
  }
}
