/** The pass name directory in shared memory: what one publish leaves behind. */
module Directory {
  import opened Octets

  const SLOTS: nat := 32
  const SLOT_SIZE: nat := 48

  /** Pass names as the producer hands them over. */
  type Names = seq<Bytes>

  /** A store to shared memory, in the order the producer makes them. PutVersion is the releasing one. */
  datatype Store = PutByte(slot: nat, at: nat, value: Byte) | PutCount(count: nat) | PutVersion

  type Log = seq<Store>

  function Min(a: nat, b: nat): nat {
    if a < b then a else b
  }

  // --- C strings ---

  /** The text before the terminator, or all of it when there is none. */
  function CString(s: Bytes): Bytes {
    if s == [] || s[0] == 0 then [] else [s[0]] + CString(s[1..])
  }

  /** What a formatted write of a name into a slot keeps of it. */
  function Cut(name: Bytes): (r: Bytes)
    ensures |r| < SLOT_SIZE
  {
    var t := CString(name);
    if |t| < SLOT_SIZE then t else t[..SLOT_SIZE - 1]
  }

  predicate NoZero(s: Bytes) {
    forall i :: 0 <= i < |s| ==> s[i] != 0
  }

  lemma {:induction false} CStringHasNoZero(s: Bytes)
    ensures NoZero(CString(s)) && |CString(s)| <= |s|
  {
    if s != [] && s[0] != 0 {
      CStringHasNoZero(s[1..]);
    }
  }

  /** t is a name as a slot of 48 bytes shows it: the start of it, up to its first zero or as much as fits. */
  predicate IsText(t: Bytes, name: Bytes) {
    t <= name && NoZero(t) && |t| <= 47 && (|t| == 47 || |t| == |name| || name[|t|] == 0)
  }

  /** A name without zeros that fits shows as itself. */
  lemma WholeNameShows(t: Bytes, name: Bytes)
    requires IsText(t, name) && NoZero(name) && |name| <= 47
    ensures t == name
  {
    assert t == name[..|t|];
  }

  lemma {:induction false} CStringEnds(s: Bytes)
    ensures var t := CString(s); t <= s && NoZero(t) && (|t| == |s| || s[|t|] == 0)
  {
    CStringHasNoZero(s);
    if s != [] && s[0] != 0 {
      CStringEnds(s[1..]);
      assert s == [s[0]] + s[1..];
    }
  }

  lemma CutIsText(name: Bytes)
    ensures IsText(Cut(name), name) && NoZero(Cut(name))
  {
    CStringEnds(name);
  }

  lemma {:induction false} CStringIs(s: Bytes, t: Bytes)
    requires NoZero(t) && |t| < |s| && s[|t|] == 0 && forall k :: 0 <= k < |t| ==> s[k] == t[k]
    ensures CString(s) == t
    decreases |t|
  {
    if t != [] {
      CStringIs(s[1..], t[1..]);
    }
  }

  // --- the stores of a publish ---

  function NameBytes(slot: nat, name: Bytes): Log {
    if name == [] then []
    else
      var n := |name| - 1;
      NameBytes(slot, name[..n]) + [PutByte(slot, n, name[n])]
  }

  /** A name and its terminator, or just an empty name for a slot past the last one. */
  function SlotStores(names: Names, slot: nat): Log {
    if slot < |names| then NameBytes(slot, Cut(names[slot])) + [PutByte(slot, |Cut(names[slot])|, 0)]
    else [PutByte(slot, 0, 0)]
  }

  function Concat(parts: seq<Log>): Log {
    if parts == [] then [] else Concat(parts[..|parts| - 1]) + parts[|parts| - 1]
  }

  function SlotParts(names: Names): (parts: seq<Log>)
    ensures |parts| == SLOTS && forall i :: 0 <= i < SLOTS ==> parts[i] == SlotStores(names, i)
  {
    seq(SLOTS, i requires 0 <= i => SlotStores(names, i))
  }

  function PublishStores(names: Names): (s: Log)
    ensures s != [] && s[|s| - 1] == PutVersion
  {
    Concat(SlotParts(names)) + [PutCount(Min(|names|, SLOTS)), PutVersion]
  }

  /** All stores of a sequence of publishes. */
  function AllStores(published: seq<Names>): Log {
    if published == [] then [] else AllStores(published[..|published| - 1]) + PublishStores(published[|published| - 1])
  }

  // --- memory after some stores ---

  /** A byte of memory that was b, after some stores. */
  function ByteAfter(b: Byte, stores: Log, slot: nat, at: nat): Byte {
    if stores == [] then b
    else
      var last := stores[|stores| - 1];
      if last.PutByte? && last.slot == slot && last.at == at then last.value
      else ByteAfter(b, stores[..|stores| - 1], slot, at)
  }

  /** Memory is zero before the first store. */
  function ByteAt(log: Log, slot: nat, at: nat): Byte {
    ByteAfter(0, log, slot, at)
  }

  function CountAt(log: Log): nat {
    if log == [] then 0
    else
      var last := log[|log| - 1];
      if last.PutCount? then last.count else CountAt(log[..|log| - 1])
  }

  lemma {:induction false} Then(b: Byte, first: Log, second: Log, slot: nat, at: nat)
    ensures ByteAfter(b, first + second, slot, at) == ByteAfter(ByteAfter(b, first, slot, at), second, slot, at)
    decreases |second|
  {
    if second == [] {
      assert first + second == first;
    } else {
      assert (first + second)[..|first + second| - 1] == first + second[..|second| - 1];
      Then(b, first, second[..|second| - 1], slot, at);
    }
  }

  lemma {:induction false} Untouched(b: Byte, stores: Log, slot: nat, at: nat)
    requires forall i :: 0 <= i < |stores| ==> !(stores[i].PutByte? && stores[i].slot == slot && stores[i].at == at)
    ensures ByteAfter(b, stores, slot, at) == b
    decreases |stores|
  {
    if stores != [] {
      Untouched(b, stores[..|stores| - 1], slot, at);
    }
  }

  lemma {:induction false} NameBytesOnly(slot: nat, name: Bytes)
    ensures forall i :: 0 <= i < |NameBytes(slot, name)| ==>
              var s := NameBytes(slot, name)[i]; s.PutByte? && s.slot == slot && s.at < |name|
  {
    if name != [] {
      NameBytesOnly(slot, name[..|name| - 1]);
    }
  }

  lemma {:induction false} NameWritten(b: Byte, slot: nat, name: Bytes, at: nat)
    requires at < |name|
    ensures ByteAfter(b, NameBytes(slot, name), slot, at) == name[at]
    decreases |name|
  {
    var n := |name| - 1;
    if at < n {
      NameWritten(b, slot, name[..n], at);
    }
  }

  /** After these stores slot holds the name and its terminator, whatever it held before. */
  ghost predicate Writes(stores: Log, slot: nat, name: Bytes) {
    && (forall at, b: Byte :: 0 <= at < |name| ==> ByteAfter(b, stores, slot, at) == name[at])
    && (forall b: Byte :: ByteAfter(b, stores, slot, |name|) == 0)
  }

  ghost predicate LeavesAlone(stores: Log, slot: nat) {
    forall at: nat, b: Byte :: ByteAfter(b, stores, slot, at) == b
  }

  function NameOf(names: Names, slot: nat): (name: Bytes)
    ensures |name| < SLOT_SIZE
  {
    if slot < |names| then Cut(names[slot]) else []
  }

  lemma NameAndEnd(slot: nat, name: Bytes)
    ensures Writes(NameBytes(slot, name) + [PutByte(slot, |name|, 0)], slot, name)
  {
    var end := [PutByte(slot, |name|, 0)];
    forall at, b: Byte | 0 <= at < |name|
      ensures ByteAfter(b, NameBytes(slot, name) + end, slot, at) == name[at]
    {
      NameWritten(b, slot, name, at);
      Then(b, NameBytes(slot, name), end, slot, at);
      Untouched(name[at], end, slot, at);
    }
  }

  lemma SlotWritten(names: Names, slot: nat)
    ensures Writes(SlotStores(names, slot), slot, NameOf(names, slot))
  {
    if slot < |names| {
      NameAndEnd(slot, Cut(names[slot]));
    }
  }

  lemma OtherSlotAlone(names: Names, slot: nat, other: nat)
    requires other != slot
    ensures LeavesAlone(SlotStores(names, slot), other)
  {
    if slot < |names| {
      NameBytesOnly(slot, Cut(names[slot]));
    }
    forall at: nat, b: Byte
      ensures ByteAfter(b, SlotStores(names, slot), other, at) == b
    {
      Untouched(b, SlotStores(names, slot), other, at);
    }
  }

  lemma WritesLast(first: Log, second: Log, slot: nat, name: Bytes)
    requires Writes(second, slot, name)
    ensures Writes(first + second, slot, name)
  {
    forall at, b: Byte | 0 <= at <= |name|
      ensures ByteAfter(b, first + second, slot, at) == if at < |name| then name[at] else 0
    {
      Then(b, first, second, slot, at);
    }
  }

  lemma WritesFirst(first: Log, second: Log, slot: nat, name: Bytes)
    requires Writes(first, slot, name) && LeavesAlone(second, slot)
    ensures Writes(first + second, slot, name)
  {
    forall at, b: Byte | 0 <= at <= |name|
      ensures ByteAfter(b, first + second, slot, at) == if at < |name| then name[at] else 0
    {
      Then(b, first, second, slot, at);
    }
  }

  /** One part writes the slot and the others leave it alone. */
  lemma {:induction false} PartsWrite(parts: seq<Log>, slot: nat, name: Bytes)
    requires slot < |parts| && Writes(parts[slot], slot, name)
    requires forall i :: 0 <= i < |parts| && i != slot ==> LeavesAlone(parts[i], slot)
    ensures Writes(Concat(parts), slot, name)
    decreases |parts|
  {
    var n := |parts| - 1;
    if slot == n {
      WritesLast(Concat(parts[..n]), parts[n], slot, name);
    } else {
      PartsWrite(parts[..n], slot, name);
      WritesFirst(Concat(parts[..n]), parts[n], slot, name);
    }
  }

  lemma SlotsWritten(names: Names, slot: nat)
    requires slot < SLOTS
    ensures Writes(Concat(SlotParts(names)), slot, NameOf(names, slot))
  {
    SlotWritten(names, slot);
    forall i | 0 <= i < SLOTS && i != slot
      ensures LeavesAlone(SlotParts(names)[i], slot)
    {
      OtherSlotAlone(names, i, slot);
    }
    PartsWrite(SlotParts(names), slot, NameOf(names, slot));
  }

  lemma EndAlone(count: nat, slot: nat)
    ensures LeavesAlone([PutCount(count), PutVersion], slot)
  {
    forall at: nat, b: Byte
      ensures ByteAfter(b, [PutCount(count), PutVersion], slot, at) == b
    {
      Untouched(b, [PutCount(count), PutVersion], slot, at);
    }
  }

  /** What slot holds is the name, with its terminator. */
  predicate HoldsName(log: Log, slot: nat, name: Bytes) {
    (forall at :: 0 <= at < |name| ==> ByteAt(log, slot, at) == name[at]) && ByteAt(log, slot, |name|) == 0
  }

  /** After a publish every slot shows its name, or an empty one past the last, and the count is that of the names but
      at most 32, whatever was there before. */
  lemma PublishWritten(log: Log, names: Names, slot: nat)
    requires slot < 32
    ensures slot < |names| ==>
              exists t :: IsText(t, names[slot]) && HoldsName(log + PublishStores(names), slot, t)
    ensures slot >= |names| ==> HoldsName(log + PublishStores(names), slot, [])
    ensures CountAt(log + PublishStores(names)) == if |names| < 32 then |names| else 32
  {
    PublishWrites(log, names, slot);
    if slot < |names| {
      CutIsText(names[slot]);
      assert IsText(Cut(names[slot]), names[slot]);
    }
  }

  lemma PublishWrites(log: Log, names: Names, slot: nat)
    requires slot < SLOTS
    ensures HoldsName(log + PublishStores(names), slot, NameOf(names, slot))
    ensures CountAt(log + PublishStores(names)) == Min(|names|, SLOTS)
  {
    var count := Min(|names|, SLOTS);
    SlotsWritten(names, slot);
    EndAlone(count, slot);
    WritesFirst(Concat(SlotParts(names)), [PutCount(count), PutVersion], slot, NameOf(names, slot));
    WritesLast(log, PublishStores(names), slot, NameOf(names, slot));
    CountOfPublish(log, Concat(SlotParts(names)), count);
  }

  lemma CountOfPublish(log: Log, stores: Log, count: nat)
    ensures CountAt(log + (stores + [PutCount(count), PutVersion])) == count
  {
    var all, n := log + (stores + [PutCount(count), PutVersion]), |log| + |stores|;
    assert all[n + 1] == PutVersion && all[..n + 1][n] == PutCount(count);
  }
}
