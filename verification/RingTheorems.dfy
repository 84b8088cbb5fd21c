/** What the ring promises its users, on every legal run. */
module RingTheorems {
  import opened Bits
  import opened RingProtocol
  import opened RingProofs
  import opened RingCalls

  /** The queue a run has built up: accepted and not yet delivered. */
  function Pending(s: State): seq<Record>
    requires |s.h.delivered| <= |s.h.accepted|
  {
    s.h.accepted[|s.h.delivered|..]
  }

  /** The operations of a bounded queue. */
  datatype QueueOp = Enqueue(rec: Record) | Dequeue(batch: seq<Record>) | Nothing

  ghost predicate QueueStep(q: seq<Record>, op: QueueOp, r: seq<Record>, capacity: nat) {
    match op
    case Enqueue(rec) => |q| < capacity && r == q + [rec]
    case Dequeue(batch) => 1 <= |batch| && q == batch + r
    case Nothing => r == q
  }

  /** The queue operation a step of the machine completes: a push when head moves, a pop when tail moves. */
  function Completes(m: Machine, step: Step): QueueOp
    requires Enabled(m, step)
  {
    match step
    case PublishHead => Enqueue(m.producer.rec)
    case PublishTail => Dequeue(m.consumer.out)
    case _ => Nothing
  }

  lemma FrontOf<T>(all: seq<T>, from: nat, front: seq<T>)
    requires from + |front| <= |all| && front == all[from..from + |front|]
    ensures all[from..] == front + all[from + |front|..]
  {
  }

  lemma DequeueStep(s: State)
    requires Inv(s) && Enabled(s.m, PublishTail)
    ensures var n := Next(s, PublishTail);
            |s.h.delivered| <= |s.h.accepted| && |n.h.delivered| <= |n.h.accepted| &&
            QueueStep(Pending(s), Dequeue(s.m.consumer.out), Pending(n), s.m.capacity)
  {
    FrontOf(s.h.accepted, |s.h.delivered|, s.m.consumer.out);
  }

  /** Every step of every run is a step of a bounded first in first out queue of whole records: of the record the push
      was given, and of at most as many as the pop was asked for. */
  lemma RefinesQueue(capacity: Capacity, steps: seq<Step>, step: Step)
    requires Legal(capacity, steps) && Enabled(Run(capacity, steps).m, step)
    ensures var s := Run(capacity, steps);
            var n := Next(s, step);
            |s.h.delivered| <= |s.h.accepted| && |n.h.delivered| <= |n.h.accepted| &&
            |Pending(n)| <= capacity &&
            QueueStep(Pending(s), Completes(s.m, step), Pending(n), capacity)
    ensures var op := Completes(Run(capacity, steps).m, step);
            (op.Enqueue? ==> OfferedLast(steps, op.rec)) &&
            (op.Dequeue? ==> 1 <= |op.batch| <= LastAsked(steps))
  {
    RunKeeps(capacity, steps);
    RefinesQueueHere(Run(capacity, steps), step);
    CallsAreAnswered(capacity, steps, step);
  }

  /** What a step completes is what the call under way was given: its record, or at most the records it asked for. */
  lemma CallsAreAnswered(capacity: Capacity, steps: seq<Step>, step: Step)
    requires Legal(capacity, steps) && Enabled(Run(capacity, steps).m, step)
    ensures var op := Completes(Run(capacity, steps).m, step);
            (op.Enqueue? ==> OfferedLast(steps, op.rec)) &&
            (op.Dequeue? ==> 1 <= |op.batch| <= LastAsked(steps))
  {
    if step.PublishHead? {
      HoldsOffered(capacity, steps);
    } else if step.PublishTail? {
      RunKeeps(capacity, steps);
      RunTakesAsked(capacity, steps);
    }
  }

  lemma RefinesQueueHere(s: State, step: Step)
    requires Inv(s) && Enabled(s.m, step)
    ensures var n := Next(s, step);
            |s.h.delivered| <= |s.h.accepted| && |n.h.delivered| <= |n.h.accepted| &&
            |Pending(n)| <= s.m.capacity &&
            QueueStep(Pending(s), Completes(s.m, step), Pending(n), s.m.capacity)
  {
    match step
    case PublishTail => DequeueStep(s);
    case PublishHead => assert Pending(Next(s, step)) == Pending(s) + [s.m.producer.rec];
    case _ =>
  }

  /** The records delivered are a prefix of the records accepted. */
  lemma DeliveredIsPrefix(capacity: Capacity, steps: seq<Step>)
    requires Legal(capacity, steps)
    ensures var h := Run(capacity, steps).h;
            h.delivered <= h.accepted && |h.accepted| - |h.delivered| <= capacity
  {
    RunKeeps(capacity, steps);
  }

  /** A push gives up exactly when the tail it loaded leaves no room, and with the newest tail that means a full
      ring. */
  lemma PushFailsOnlyWhenFull(capacity: Capacity, steps: seq<Step>, at: nat)
    requires Legal(capacity, steps) && Enabled(Run(capacity, steps).m, ReloadTail(at))
    ensures var s := Run(capacity, steps);
            var gaveUp := Do(s.m, ReloadTail(at)).producer.Idle?;
            at < |s.h.tailCounts| && |s.h.delivered| <= |s.h.accepted| &&
            (gaveUp <==> Do(s.m, ReloadTail(at)).dropped == s.m.dropped + 1) &&
            (gaveUp <==> |s.h.accepted| == s.h.tailCounts[at] + capacity) &&
            (at == |s.m.tails| - 1 ==> (gaveUp <==> |Pending(s)| == capacity))
  {
    RunKeeps(capacity, steps);
    var s := Run(capacity, steps);
    FullTest(s, s.h.tailCounts[at]);
  }

  /** A pop comes back empty exactly when the head it loaded has nothing new, and with the newest head that means an
      empty ring. */
  lemma PopEmptyOnlyWhenEmpty(capacity: Capacity, steps: seq<Step>, at: nat)
    requires Legal(capacity, steps) && Enabled(Run(capacity, steps).m, ReloadHead(at))
    ensures var s := Run(capacity, steps);
            var empty := Do(s.m, ReloadHead(at)).consumer.Resting?;
            |s.h.delivered| <= at <= |s.h.accepted| &&
            (empty <==> at == |s.h.delivered|) &&
            (at == |s.m.heads| - 1 ==> (empty <==> Pending(s) == []))
  {
    RunKeeps(capacity, steps);
    EmptyTest(Run(capacity, steps), at);
  }

  /** While a record is being written no record of the batch being copied lies in that slot,
      and the record that used the slot one lap earlier has left the ring. */
  lemma NoOverlap(capacity: Capacity, steps: seq<Step>)
    requires Legal(capacity, steps)
    ensures var s := Run(capacity, steps);
            var m := s.m;
            m.producer.Writing? ==>
              && (|s.h.accepted| >= capacity ==> |s.h.accepted| - capacity < |s.h.delivered|)
              && (m.consumer.Copying? && |m.consumer.out| < m.consumer.available ==>
                    BitAnd(Head(m), Mask(m)) != ReadSlot(m))
              && (m.consumer.Copying? ==>
                    forall i :: |s.h.delivered| <= i < |s.h.delivered| + m.consumer.available ==>
                      i % m.capacity != |s.h.accepted| % m.capacity)
  {
    RunKeeps(capacity, steps);
    var s := Run(capacity, steps);
    var m, h := s.m, s.h;
    if m.producer.Writing? && m.consumer.Copying? {
      WriteSlot(s);
      ReadSlotIs(s);
      forall i | |h.delivered| <= i < |h.delivered| + m.consumer.available
        ensures i % m.capacity != |h.accepted| % m.capacity
      {
        if i % m.capacity == |h.accepted| % m.capacity {
          SameSlot(i, |h.accepted|, m.capacity);
        }
      }
    }
  }

  /** The wrapped indices are the unbounded counts modulo 2^64, and every decision taken on them is the one
      that the counts call for: fullness by subtraction, emptiness by equality, slots by mask. */
  ghost predicate DecidesUnwrapped(s: State) {
    var m, h := s.m, s.h;
    && |m.heads| > 0 && |m.tails| > 0 && |h.delivered| <= |h.accepted|
    && Head(m) == |h.accepted| % TWO64 && Tail(m) == |h.delivered| % TWO64
    && (LooksFull(m, m.cachedTail) <==> |h.accepted| - h.cachedTail >= m.capacity)
    && (Tail(m) == m.cachedHead <==> |h.delivered| == h.cachedHead)
    && Sub64(m.cachedHead, Tail(m)) == h.cachedHead - |h.delivered|
    && Sub64(Head(m), Tail(m)) == |Pending(s)|
    && BitAnd(Head(m), Mask(m)) == |h.accepted| % m.capacity
    && (m.consumer.Copying? ==> ReadSlot(m) == (|h.delivered| + |m.consumer.out|) % m.capacity)
  }

  lemma InvDecidesUnwrapped(s: State)
    requires Inv(s)
    ensures DecidesUnwrapped(s)
  {
    FullTest(s, s.h.cachedTail);
    EmptyTest(s, s.h.cachedHead);
    WrapDistance(|s.h.accepted|, |s.h.delivered|);
    WriteSlot(s);
    if s.m.consumer.Copying? {
      ReadSlotIs(s);
    }
  }

  /** On every run, wrapping decides nothing. */
  lemma WrapIsInvisible(capacity: Capacity, steps: seq<Step>)
    requires Legal(capacity, steps)
    ensures DecidesUnwrapped(Run(capacity, steps))
  {
    RunKeeps(capacity, steps);
    InvDecidesUnwrapped(Run(capacity, steps));
  }

  /** After an exit neither side takes another step. */
  lemma NothingAfterExit(s: State, step: Step)
    requires Inv(s) && s.m.consumer.Exited?
    ensures !Enabled(s.m, step)
  {
  }

  /** A consumer that saw the done flag and then counted nothing pending has received every record ever accepted,
      and none is accepted any more. */
  lemma ExitMissesNothing(capacity: Capacity, steps: seq<Step>)
    requires Legal(capacity, steps) && Run(capacity, steps).m.consumer.Exited?
    ensures Run(capacity, steps).h.delivered == Run(capacity, steps).h.accepted
    ensures forall step :: !Enabled(Run(capacity, steps).m, step)
  {
    RunKeeps(capacity, steps);
    forall step
      ensures !Enabled(Run(capacity, steps).m, step)
    {
      NothingAfterExit(Run(capacity, steps), step);
    }
  }

  // --- why the flag has to be tested before the count ---

  /** Part way through the first push into a ring of one slot. */
  ghost predicate FirstPush(s: State, rec: Record, words: nat) {
    && s.m.producer == Writing(rec, words) && s.m.consumer.Resting? && s.m.done.NotDone?
    && s.m.heads == [HeadStore(0, 0)] && s.m.tails == [0] && s.m.seenHead == 0
    && s.h.accepted == [] && s.h.delivered == []
  }

  lemma FirstPushStarts(rec: Record)
    ensures Legal(1, [Offer(rec), TestFull]) && FirstPush(Run(1, [Offer(rec), TestFull]), rec, 0)
  {
    assert Legal(1, []);
    OneMoreStep(1, [], Offer(rec));
    assert [] + [Offer(rec)] == [Offer(rec)];
    OneMoreStep(1, [Offer(rec)], TestFull);
    assert [Offer(rec)] + [TestFull] == [Offer(rec), TestFull];
  }

  lemma FirstPushGoesOn(s: State, rec: Record, words: nat)
    requires FirstPush(s, rec, words) && words < RECORD_WORDS
    ensures Enabled(s.m, WriteWord) && FirstPush(Next(s, WriteWord), rec, words + 1)
  {
  }

  lemma {:induction false} OnePushRuns(rec: Record, words: nat) returns (steps: seq<Step>)
    requires words <= RECORD_WORDS
    ensures Legal(1, steps) && FirstPush(Run(1, steps), rec, words)
  {
    if words == 0 {
      FirstPushStarts(rec);
      steps := [Offer(rec), TestFull];
    } else {
      var before := OnePushRuns(rec, words - 1);
      FirstPushGoesOn(Run(1, before), rec, words - 1);
      OneMoreStep(1, before, WriteWord);
      steps := before + [WriteWord];
    }
  }

  /** Counting before testing the flag would not do: with the flag already set and a record waiting,
      an acquire load of head may still return the index from before that record. */
  lemma CountingFirstCanMiss(rec: Record)
    ensures exists steps: seq<Step> :: Legal(1, steps) &&
              var s := Run(1, steps);
              s.m.done.Done? && |s.h.delivered| < |s.h.accepted| &&
              |s.m.tails| > 0 && s.m.seenHead < |s.m.heads| && Sub64(s.m.heads[s.m.seenHead].value, Tail(s.m)) == 0
  {
    var steps := OnePushRuns(rec, RECORD_WORDS);
    OneMoreStep(1, steps, PublishHead);
    OneMoreStep(1, steps + [PublishHead], MarkDone);
    assert Legal(1, steps + [PublishHead] + [MarkDone]);
  }
}
