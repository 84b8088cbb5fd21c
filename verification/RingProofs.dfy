/** Every interleaving of the ring's steps behaves as a bounded queue of whole records. */
module RingProofs {
  import opened Bits
  import opened RingProtocol

  // --- arithmetic of wrapped indices ---

  function Wrap(n: int): U64 {
    n % TWO64
  }

  lemma WrapAdd(n: int, k: int)
    ensures Add64(Wrap(n), Wrap(k)) == Wrap(n + k)
  {
  }

  lemma WrapDistance(a: int, b: int)
    requires 0 <= a - b < TWO64
    ensures Sub64(Wrap(a), Wrap(b)) == a - b
  {
  }

  lemma ModOfMod(n: nat, c: nat, rest: nat)
    requires c >= 1 && rest >= 1 && c * rest >= 1
    ensures (n % (c * rest)) % c == n % c
  {
    var big := c * rest;
    var laps, m := n / big, n % big;
    var q, r := m / c, m % c;
    assert m == c * q + r && n == big * laps + m;
    assert big * laps == c * (rest * laps);
    assert n == c * (rest * laps + q) + r;
    ModUnique(n, c, rest * laps + q, r);
  }

  /** The slot of a wrapped index is the slot of the index itself. */
  lemma WrapSlot(n: nat, capacity: Capacity)
    ensures BitAnd(Wrap(n), capacity - 1) == n % capacity
  {
    var k := TrickFindsExponent(capacity);
    AndMask(Wrap(n), k);
    Pow2Sum(k, 64 - k);
    Pow2Of64();
    ModOfMod(n, capacity, Pow2(64 - k));
  }

  lemma SameSlot(a: nat, b: nat, capacity: nat)
    requires capacity >= 1 && a % capacity == b % capacity && a <= b < a + capacity
    ensures a == b
  {
    var p, q, r := a / capacity, b / capacity, a % capacity;
    assert a == capacity * p + r && b == capacity * q + r;
    assert q < p ==> capacity * q <= capacity * (p - 1);
    assert q > p ==> capacity * q >= capacity * (p + 1);
  }

  // --- the invariant ---

  function Started(m: Machine): nat {
    if m.producer.Writing? then m.producer.words else 0
  }

  /** The indices are the wrapped counts, and each side's cached far index is an old value of the true one. */
  ghost predicate IndexInv(s: State) {
    var m, h := s.m, s.h;
    var accepted, delivered := |h.accepted|, |h.delivered|;
    && |m.heads| == accepted + 1
    && (forall j :: 0 <= j < |m.heads| ==> m.heads[j] == HeadStore(Wrap(j), RECORD_WORDS * j))
    && |m.tails| == |h.tailCounts| >= 1
    && (forall j :: 0 <= j < |m.tails| ==> m.tails[j] == Wrap(h.tailCounts[j]))
    && (forall i, j :: 0 <= i <= j < |m.tails| ==> h.tailCounts[i] <= h.tailCounts[j])
    && h.tailCounts[|m.tails| - 1] == delivered
    && m.seenTail < |m.tails|
    && h.cachedTail == h.tailCounts[m.seenTail] && m.cachedTail == Wrap(h.cachedTail)
    && accepted - m.capacity <= h.cachedTail <= delivered
    && m.cachedHead == Wrap(h.cachedHead)
    && delivered <= h.cachedHead <= m.seenHead <= accepted
    && RECORD_WORDS * m.seenHead <= m.view
    && (m.producer.Writing? ==> accepted - h.cachedTail < m.capacity && m.producer.words <= RECORD_WORDS)
  }

  /** The plain stores are the accepted records word by word, then the started part of the next one. */
  ghost predicate LogInv(s: State) {
    var m, h := s.m, s.h;
    var accepted := |h.accepted|;
    && |m.log| == RECORD_WORDS * accepted + Started(m)
    && m.view <= |m.log|
    && (forall i, w :: 0 <= i < accepted && 0 <= w < RECORD_WORDS ==>
          m.log[RECORD_WORDS * i + w] == Store(i % m.capacity, w, h.accepted[i][w]))
    && (m.producer.Writing? ==>
          m.producer.words <= RECORD_WORDS &&
          forall w :: 0 <= w < m.producer.words ==>
            m.log[RECORD_WORDS * accepted + w] == Store(accepted % m.capacity, w, m.producer.rec[w]))
  }

  /** What was delivered and what the running copy holds are records that were accepted, in order. */
  ghost predicate CopyInv(s: State) {
    var m, h := s.m, s.h;
    && h.delivered <= h.accepted
    && (m.consumer.Copying? ==>
          var Copying(available, out, words) := m.consumer;
          var first := |h.delivered|;
          && 1 <= available && first + available <= h.cachedHead <= |h.accepted|
          && |out| <= available && |words| < RECORD_WORDS && (|out| == available ==> words == [])
          && out == h.accepted[first..first + |out|]
          && (|out| < available ==> words == h.accepted[first + |out|][..|words|]))
  }

  /** Once done is set the producer is finished, and an exit comes only after everything was delivered. */
  ghost predicate DoneInv(s: State) {
    var m, h := s.m, s.h;
    && (m.done.Done? ==> m.producer.Finished? && m.done == Done(|h.accepted|, |m.log|))
    && (m.consumer.CountingPending? || m.consumer.Exited? ==> m.done.Done? && m.seenHead == |h.accepted|)
    && (m.consumer.Exited? ==> h.delivered == h.accepted)
    && ((m.consumer.TestingEmpty? || m.consumer.RetestingEmpty?) ==> m.consumer.max >= 1)
  }

  ghost predicate Inv(s: State) {
    IndexInv(s) && LogInv(s) && CopyInv(s) && DoneInv(s)
  }

  // --- the producer's and the consumer's tests mean what they say ---

  /** The wrapped fullness test is the test on unbounded counts. */
  lemma FullTest(s: State, tailCount: nat)
    requires IndexInv(s) && s.h.cachedTail <= tailCount <= |s.h.delivered|
    ensures LooksFull(s.m, Wrap(tailCount)) <==> |s.h.accepted| - tailCount >= s.m.capacity
    ensures LooksFull(s.m, Wrap(tailCount)) <==> |s.h.accepted| - tailCount == s.m.capacity
  {
    WrapDistance(|s.h.accepted|, tailCount);
  }

  /** The wrapped emptiness test and the number of records it finds are those of unbounded counts. */
  lemma EmptyTest(s: State, headCount: nat)
    requires IndexInv(s) && |s.h.delivered| <= headCount <= |s.h.accepted|
    ensures Tail(s.m) == Wrap(headCount) <==> |s.h.delivered| == headCount
    ensures Sub64(Wrap(headCount), Tail(s.m)) == headCount - |s.h.delivered|
  {
    WrapDistance(headCount, |s.h.delivered|);
  }

  /** The producer writes the slot of the next record. */
  lemma WriteSlot(s: State)
    requires IndexInv(s)
    ensures BitAnd(Head(s.m), Mask(s.m)) == |s.h.accepted| % s.m.capacity
  {
    WrapSlot(|s.h.accepted|, s.m.capacity);
  }

  lemma ReadSlotIs(s: State)
    requires IndexInv(s) && s.m.consumer.Copying?
    ensures ReadSlot(s.m) == (|s.h.delivered| + |s.m.consumer.out|) % s.m.capacity
  {
    WrapAdd(|s.h.delivered|, |s.m.consumer.out|);
    WrapSlot(|s.h.delivered| + |s.m.consumer.out|, s.m.capacity);
  }

  /** Although a plain load may return a stale or an unfinished store, the word of the wanted record is the only
      choice. */
  lemma OnlyTheWantedWord(s: State, i: nat, w: nat, from: int)
    requires IndexInv(s) && LogInv(s)
    requires |s.h.delivered| <= i < s.m.seenHead && w < RECORD_WORDS
    requires Readable(s.m, i % s.m.capacity, w, from)
    ensures from == RECORD_WORDS * i + w
  {
    var m, h := s.m, s.h;
    var wanted := RECORD_WORDS * i + w;
    assert m.log[wanted] == Store(i % m.capacity, w, h.accepted[i][w]);
    assert To(m.log[wanted], i % m.capacity, w);
    assert wanted <= from;
    var j, v := from / RECORD_WORDS, from % RECORD_WORDS;
    assert from == RECORD_WORDS * j + v;
    if j < |h.accepted| {
      assert m.log[RECORD_WORDS * j + v] == Store(j % m.capacity, v, h.accepted[j][v]);
    } else {
      assert j == |h.accepted| && m.producer.Writing?;
      assert m.log[RECORD_WORDS * |h.accepted| + v] == Store(j % m.capacity, v, m.producer.rec[v]);
    }
    assert j % m.capacity == i % m.capacity && v == w;
    SameSlot(i, j, m.capacity);
  }

  // --- every step keeps the invariant ---

  lemma TestFullKeeps(s: State)
    requires Inv(s) && Enabled(s.m, TestFull)
    ensures Inv(Next(s, TestFull))
  {
    FullTest(s, s.h.cachedTail);
  }

  lemma ReloadTailIndices(s: State, at: nat)
    requires IndexInv(s) && Enabled(s.m, ReloadTail(at))
    ensures IndexInv(Next(s, ReloadTail(at)))
  {
    FullTest(s, s.h.tailCounts[at]);
  }

  lemma ReloadTailLog(s: State, at: nat)
    requires LogInv(s) && Enabled(s.m, ReloadTail(at))
    ensures LogInv(Next(s, ReloadTail(at)))
  {
  }

  lemma ReloadTailRest(s: State, at: nat)
    requires CopyInv(s) && DoneInv(s) && Enabled(s.m, ReloadTail(at))
    ensures CopyInv(Next(s, ReloadTail(at))) && DoneInv(Next(s, ReloadTail(at)))
  {
  }

  lemma ReloadTailKeeps(s: State, at: nat)
    requires Inv(s) && Enabled(s.m, ReloadTail(at))
    ensures Inv(Next(s, ReloadTail(at)))
  {
    ReloadTailIndices(s, at);
    ReloadTailLog(s, at);
    ReloadTailRest(s, at);
  }

  lemma WriteWordKeeps(s: State)
    requires Inv(s) && Enabled(s.m, WriteWord)
    ensures Inv(Next(s, WriteWord))
  {
    WriteSlot(s);
  }

  lemma PublishHeadIndices(s: State)
    requires IndexInv(s) && LogInv(s) && Enabled(s.m, PublishHead)
    ensures IndexInv(Next(s, PublishHead))
  {
    WrapAdd(|s.h.accepted|, 1);
  }

  lemma PublishHeadLog(s: State)
    requires LogInv(s) && Enabled(s.m, PublishHead)
    ensures LogInv(Next(s, PublishHead))
  {
  }

  lemma PublishHeadKeeps(s: State)
    requires Inv(s) && Enabled(s.m, PublishHead)
    ensures Inv(Next(s, PublishHead))
  {
    PublishHeadIndices(s);
    PublishHeadLog(s);
    assert Next(s, PublishHead).h.accepted[..|s.h.accepted|] == s.h.accepted;
  }

  lemma TestEmptyKeeps(s: State)
    requires Inv(s) && Enabled(s.m, TestEmpty)
    ensures Inv(Next(s, TestEmpty))
  {
    EmptyTest(s, s.h.cachedHead);
  }

  lemma ReloadHeadKeeps(s: State, at: nat)
    requires Inv(s) && Enabled(s.m, ReloadHead(at))
    ensures Inv(Next(s, ReloadHead(at)))
  {
    EmptyTest(s, at);
  }

  /** The word a copy step takes is the word of the record it is copying. */
  lemma WordTaken(s: State, from: int)
    requires Inv(s) && Enabled(s.m, ReadWord(from))
    ensures 0 <= from
    ensures var i := |s.h.delivered| + |s.m.consumer.out|;
            i < |s.h.accepted| && s.m.log[from].value == s.h.accepted[i][|s.m.consumer.words|]
  {
    ReadSlotIs(s);
    OnlyTheWantedWord(s, |s.h.delivered| + |s.m.consumer.out|, |s.m.consumer.words|, from);
  }

  lemma TakeOneMore<T>(all: seq<T>, first: nat, k: nat)
    requires first <= k < |all|
    ensures all[first..k] + [all[k]] == all[first..k + 1]
  {
  }

  lemma CopyOneMore(s: State, from: nat)
    requires CopyInv(s) && Enabled(s.m, ReadWord(from))
    requires var i := |s.h.delivered| + |s.m.consumer.out|;
             i < |s.h.accepted| && s.m.log[from].value == s.h.accepted[i][|s.m.consumer.words|]
    ensures CopyInv(Next(s, ReadWord(from)))
  {
    var Copying(available, out, words) := s.m.consumer;
    var first := |s.h.delivered|;
    var rec := s.h.accepted[first + |out|];
    if |words| + 1 == RECORD_WORDS {
      assert words + [rec[|words|]] == rec;
      TakeOneMore(s.h.accepted, first, first + |out|);
    } else {
      TakeOneMore(rec, 0, |words|);
      assert words + [rec[|words|]] == rec[..|words| + 1];
    }
  }

  lemma ReadWordKeeps(s: State, from: int)
    requires Inv(s) && Enabled(s.m, ReadWord(from))
    ensures Inv(Next(s, ReadWord(from)))
  {
    WordTaken(s, from);
    CopyOneMore(s, from);
  }

  lemma PublishTailIndices(s: State)
    requires IndexInv(s) && CopyInv(s) && Enabled(s.m, PublishTail)
    ensures IndexInv(Next(s, PublishTail))
  {
    var available := s.m.consumer.available;
    WrapAdd(|s.h.delivered|, available);
    assert available <= |s.h.accepted|;
  }

  lemma PublishTailRest(s: State)
    requires LogInv(s) && CopyInv(s) && DoneInv(s) && Enabled(s.m, PublishTail)
    ensures LogInv(Next(s, PublishTail)) && CopyInv(Next(s, PublishTail)) && DoneInv(Next(s, PublishTail))
  {
  }

  lemma PublishTailKeeps(s: State)
    requires Inv(s) && Enabled(s.m, PublishTail)
    ensures Inv(Next(s, PublishTail))
  {
    PublishTailIndices(s);
    PublishTailRest(s);
  }

  lemma LoadPendingKeeps(s: State, at: nat)
    requires Inv(s) && Enabled(s.m, LoadPending(at))
    ensures Inv(Next(s, LoadPending(at)))
  {
    EmptyTest(s, at);
  }

  lemma OfferKeeps(s: State, rec: Record)
    requires Inv(s) && Enabled(s.m, Offer(rec))
    ensures Inv(Next(s, Offer(rec)))
  {
  }

  lemma MarkDoneKeeps(s: State)
    requires Inv(s) && Enabled(s.m, MarkDone)
    ensures Inv(Next(s, MarkDone))
  {
  }

  lemma AskKeeps(s: State, max: nat)
    requires Inv(s) && Enabled(s.m, Ask(max))
    ensures Inv(Next(s, Ask(max)))
  {
  }

  lemma LoadDoneKeeps(s: State, seen: bool)
    requires Inv(s) && Enabled(s.m, LoadDone(seen))
    ensures Inv(Next(s, LoadDone(seen)))
  {
  }

  lemma ProducerStepKeeps(s: State, step: Step)
    requires Inv(s) && Enabled(s.m, step)
    requires step.Offer? || step.TestFull? || step.ReloadTail? || step.WriteWord? || step.PublishHead? || step.MarkDone?
    ensures Inv(Next(s, step))
  {
    match step
    case Offer(rec) => OfferKeeps(s, rec);
    case TestFull => TestFullKeeps(s);
    case ReloadTail(at) => ReloadTailKeeps(s, at);
    case WriteWord => WriteWordKeeps(s);
    case PublishHead => PublishHeadKeeps(s);
    case MarkDone => MarkDoneKeeps(s);
  }

  lemma ConsumerStepKeeps(s: State, step: Step)
    requires Inv(s) && Enabled(s.m, step)
    requires step.Ask? || step.TestEmpty? || step.ReloadHead? || step.ReadWord? || step.PublishTail? ||
             step.LoadDone? || step.LoadPending?
    ensures Inv(Next(s, step))
  {
    match step
    case Ask(max) => AskKeeps(s, max);
    case TestEmpty => TestEmptyKeeps(s);
    case ReloadHead(at) => ReloadHeadKeeps(s, at);
    case ReadWord(from) => ReadWordKeeps(s, from);
    case PublishTail => PublishTailKeeps(s);
    case LoadDone(seen) => LoadDoneKeeps(s, seen);
    case LoadPending(at) => LoadPendingKeeps(s, at);
  }

  lemma CapacityStays(s: State, step: Step)
    requires Enabled(s.m, step)
    ensures Next(s, step).m.capacity == s.m.capacity
  {
  }

  lemma StepKeeps(s: State, step: Step)
    requires Inv(s) && Enabled(s.m, step)
    ensures Inv(Next(s, step)) && Next(s, step).m.capacity == s.m.capacity
  {
    CapacityStays(s, step);
    if step.Offer? || step.TestFull? || step.ReloadTail? || step.WriteWord? || step.PublishHead? || step.MarkDone? {
      ProducerStepKeeps(s, step);
    } else {
      ConsumerStepKeeps(s, step);
    }
  }

  lemma {:induction false} RunKeeps(capacity: Capacity, steps: seq<Step>)
    requires Legal(capacity, steps)
    ensures Inv(Run(capacity, steps))
    ensures Run(capacity, steps).m.capacity == capacity
  {
    if |steps| > 0 {
      RunKeeps(capacity, steps[..|steps| - 1]);
      StepKeeps(Run(capacity, steps[..|steps| - 1]), steps[|steps| - 1]);
    }
  }
}
