/** The calls of TryPush and PopBatch that a run is made of: what they were given, and that they can always end. */
module RingCalls {
  import opened Bits
  import opened RingProtocol
  import opened RingProofs

  // --- what the call under way was given ---

  /** The record of the last push begun. */
  predicate OfferedLast(steps: seq<Step>, rec: Record) {
    |steps| > 0 &&
    var last := steps[|steps| - 1];
    if last.Offer? then last.rec == rec else OfferedLast(steps[..|steps| - 1], rec)
  }

  /** How many records the last pop begun may take. */
  function LastAsked(steps: seq<Step>): nat {
    if |steps| == 0 then 0
    else
      var last := steps[|steps| - 1];
      if last.Ask? then last.max else LastAsked(steps[..|steps| - 1])
  }

  predicate Holds(m: Machine) {
    m.producer.TestingFull? || m.producer.RetestingFull? || m.producer.Writing?
  }

  function Least(a: int, b: int): int {
    if a < b then a else b
  }

  /** A pop takes what the head it goes by shows, but no more than it was asked for. */
  ghost predicate TakesAsked(s: State, asked: nat) {
    && (s.m.consumer.TestingEmpty? ==> s.m.consumer.max == asked)
    && (s.m.consumer.RetestingEmpty? ==> s.m.consumer.max == asked)
    && (s.m.consumer.Copying? ==>
          asked >= 1 && s.m.consumer.available == Least(asked, s.h.cachedHead - |s.h.delivered|))
  }

  lemma StartsAsked(s: State, step: Step, asked: nat)
    requires Inv(s) && Enabled(s.m, step) && TakesAsked(s, asked) && (step.TestEmpty? || step.ReloadHead?)
    ensures TakesAsked(Next(s, step), asked)
  {
    EmptyTest(s, if step.TestEmpty? then s.h.cachedHead else step.at);
  }

  lemma StepTakesAsked(s: State, step: Step, asked: nat)
    requires Inv(s) && Enabled(s.m, step) && TakesAsked(s, asked)
    ensures TakesAsked(Next(s, step), if step.Ask? then step.max else asked)
  {
    if step.TestEmpty? || step.ReloadHead? {
      StartsAsked(s, step, asked);
    }
  }

  lemma {:induction false} RunTakesAsked(capacity: Capacity, steps: seq<Step>)
    requires Legal(capacity, steps)
    ensures TakesAsked(Run(capacity, steps), LastAsked(steps))
  {
    if |steps| > 0 {
      var before := steps[..|steps| - 1];
      RunKeeps(capacity, before);
      RunTakesAsked(capacity, before);
      StepTakesAsked(Run(capacity, before), steps[|steps| - 1], LastAsked(before));
    }
  }

  /** A copy that a pop starts is as long as what the head it goes by shows, cut to what the pop was asked for. */
  lemma BatchStarts(capacity: Capacity, steps: seq<Step>, step: Step)
    requires Legal(capacity, steps) && Enabled(Run(capacity, steps).m, step) && (step.TestEmpty? || step.ReloadHead?)
    ensures var n := Next(Run(capacity, steps), step);
            n.m.consumer.Copying? ==>
              n.m.consumer.available == Least(LastAsked(steps), n.h.cachedHead - |n.h.delivered|) >= 1
  {
    RunKeeps(capacity, steps);
    RunTakesAsked(capacity, steps);
    StartsAsked(Run(capacity, steps), step, LastAsked(steps));
    StepKeeps(Run(capacity, steps), step);
  }

  /** Records are handed over after those before them: what the head that the pop went by showed, cut to what it was
      asked for. */
  ghost predicate HandsOver(s: State, n: State, asked: nat) {
    && s.h.delivered < n.h.delivered
    && |n.h.delivered| - |s.h.delivered| == Least(asked, s.h.cachedHead - |s.h.delivered|)
  }

  lemma BatchEndsHere(s: State, asked: nat)
    requires CopyInv(s) && TakesAsked(s, asked) && Enabled(s.m, PublishTail)
    ensures HandsOver(s, Next(s, PublishTail), asked)
  {
  }

  /** A pop that hands over records hands over at least one and no more than it was asked for; asked for one, one. */
  lemma BatchEnds(capacity: Capacity, steps: seq<Step>)
    requires Legal(capacity, steps) && Enabled(Run(capacity, steps).m, PublishTail)
    ensures HandsOver(Run(capacity, steps), Next(Run(capacity, steps), PublishTail), LastAsked(steps))
  {
    RunKeeps(capacity, steps);
    RunTakesAsked(capacity, steps);
    BatchEndsHere(Run(capacity, steps), LastAsked(steps));
  }

  lemma OtherStepHolds(s: State, step: Step)
    requires Enabled(s.m, step) && !step.Offer? && Holds(Next(s, step).m)
    ensures Holds(s.m) && s.m.producer.rec == Next(s, step).m.producer.rec
  {
  }

  /** The record being pushed is the one the push was given. */
  lemma {:induction false} HoldsOffered(capacity: Capacity, steps: seq<Step>)
    requires Legal(capacity, steps) && Holds(Run(capacity, steps).m)
    ensures OfferedLast(steps, Run(capacity, steps).m.producer.rec)
  {
    if |steps| > 0 {
      var before, last := steps[..|steps| - 1], steps[|steps| - 1];
      if !last.Offer? {
        OtherStepHolds(Run(capacity, before), last);
        HoldsOffered(capacity, before);
      }
    }
  }

  // --- every call can be brought to its end ---

  /** The store that a copy has to return next can be returned: no later one to its cell is seen. */
  lemma WantedIsReadable(s: State, i: nat, w: nat)
    requires IndexInv(s) && LogInv(s) && |s.h.delivered| <= i < s.m.seenHead && w < RECORD_WORDS
    ensures Readable(s.m, i % s.m.capacity, w, RECORD_WORDS * i + w)
  {
    var m, h := s.m, s.h;
    var wanted := RECORD_WORDS * i + w;
    assert m.log[wanted] == Store(i % m.capacity, w, h.accepted[i][w]);
    forall k | wanted < k < m.view && k < |m.log|
      ensures !To(m.log[k], i % m.capacity, w)
    {
      if To(m.log[k], i % m.capacity, w) {
        SameCellIsSame(s, i, w, k);
      }
    }
  }

  lemma SameCellIsSame(s: State, i: nat, w: nat, k: nat)
    requires IndexInv(s) && LogInv(s) && |s.h.delivered| <= i < s.m.seenHead && w < RECORD_WORDS
    requires RECORD_WORDS * i + w <= k < |s.m.log| && To(s.m.log[k], i % s.m.capacity, w)
    ensures k == RECORD_WORDS * i + w
  {
    var m, h := s.m, s.h;
    var j, v := k / RECORD_WORDS, k % RECORD_WORDS;
    assert k == RECORD_WORDS * j + v;
    if j < |h.accepted| {
      assert m.log[RECORD_WORDS * j + v] == Store(j % m.capacity, v, h.accepted[j][v]);
    } else {
      assert j == |h.accepted| && m.producer.Writing?;
      assert m.log[RECORD_WORDS * |h.accepted| + v] == Store(j % m.capacity, v, m.producer.rec[v]);
    }
    assert j % m.capacity == i % m.capacity && v == w;
    SameSlot(i, j, m.capacity);
  }

  /** Which word the copy wants next. */
  function WantedWord(s: State): int
    requires s.m.consumer.Copying?
  {
    RECORD_WORDS * (|s.h.delivered| + |s.m.consumer.out|) + |s.m.consumer.words|
  }

  lemma CopyNeverStuck(s: State)
    requires Inv(s) && s.m.consumer.Copying? && |s.m.consumer.out| < s.m.consumer.available
    ensures Enabled(s.m, ReadWord(WantedWord(s)))
  {
    ReadSlotIs(s);
    WantedIsReadable(s, |s.h.delivered| + |s.m.consumer.out|, |s.m.consumer.words|);
  }

  lemma OneMoreStep(capacity: Capacity, steps: seq<Step>, step: Step)
    requires Legal(capacity, steps) && Enabled(Run(capacity, steps).m, step)
    ensures Legal(capacity, steps + [step])
    ensures Run(capacity, steps + [step]) == Next(Run(capacity, steps), step)
  {
    assert (steps + [step])[..|steps|] == steps;
  }

  /** Words that a copy has yet to read. */
  function WordsLeft(m: Machine): int
    requires m.consumer.Copying?
  {
    RECORD_WORDS * (m.consumer.available - |m.consumer.out|) - |m.consumer.words|
  }

  lemma ReadStep(s: State)
    requires Inv(s) && s.m.consumer.Copying? && |s.m.consumer.out| < s.m.consumer.available
    requires Enabled(s.m, ReadWord(WantedWord(s)))
    ensures var n := Next(s, ReadWord(WantedWord(s)));
            n.m.consumer.Copying? && n.m.consumer.available == s.m.consumer.available && n.h == s.h &&
            0 <= WordsLeft(n.m) < WordsLeft(s.m) && n.m.producer == s.m.producer
  {
    ReadWordKeeps(s, WantedWord(s));
  }

  lemma {:induction false} CopyEnds(capacity: Capacity, steps: seq<Step>) returns (longer: seq<Step>)
    requires Legal(capacity, steps) && Run(capacity, steps).m.consumer.Copying?
    ensures Legal(capacity, longer) && Enabled(Run(capacity, longer).m, PublishTail)
    ensures Run(capacity, longer).h == Run(capacity, steps).h
    decreases WordsLeft(Run(capacity, steps).m)
  {
    var s := Run(capacity, steps);
    RunKeeps(capacity, steps);
    if |s.m.consumer.out| == s.m.consumer.available {
      longer := steps;
    } else {
      CopyNeverStuck(s);
      ReadStep(s);
      OneMoreStep(capacity, steps, ReadWord(WantedWord(s)));
      longer := CopyEnds(capacity, steps + [ReadWord(WantedWord(s))]);
    }
  }

  lemma AskStarts(s: State, max: nat)
    requires Inv(s) && s.m.consumer.Resting? && max >= 1
    ensures var n := Next(s, Ask(max)); n.m.consumer.TestingEmpty? && n.h == s.h && Enabled(n.m, TestEmpty)
  {
  }

  lemma TestGoesOn(s: State)
    requires Inv(s) && s.m.consumer.TestingEmpty? && Enabled(s.m, TestEmpty)
    ensures var n := Next(s, TestEmpty);
            (n.m.consumer.Copying? || n.m.consumer.RetestingEmpty?) &&
            n.h.delivered == s.h.delivered && n.h.accepted == s.h.accepted
  {
  }

  lemma NewestHeadShows(s: State) returns (step: Step)
    requires Inv(s) && s.m.consumer.RetestingEmpty? && |s.h.delivered| < |s.h.accepted|
    ensures Enabled(s.m, step)
    ensures var n := Next(s, step);
            n.m.consumer.Copying? && n.h.delivered == s.h.delivered && n.h.accepted == s.h.accepted
  {
    step := ReloadHead(|s.m.heads| - 1);
    EmptyTest(s, |s.h.accepted|);
  }

  lemma PopStarts(capacity: Capacity, steps: seq<Step>, max: nat) returns (longer: seq<Step>)
    requires Legal(capacity, steps) && Run(capacity, steps).m.consumer.Resting? && max >= 1
    ensures Legal(capacity, longer)
    ensures var s, n := Run(capacity, steps), Run(capacity, longer);
            (n.m.consumer.Copying? || n.m.consumer.RetestingEmpty?) &&
            n.h.delivered == s.h.delivered && n.h.accepted == s.h.accepted
  {
    RunKeeps(capacity, steps);
    AskStarts(Run(capacity, steps), max);
    OneMoreStep(capacity, steps, Ask(max));
    longer := steps + [Ask(max)];
    RunKeeps(capacity, longer);
    TestGoesOn(Run(capacity, longer));
    OneMoreStep(capacity, longer, TestEmpty);
    longer := longer + [TestEmpty];
  }

  lemma PopRetests(capacity: Capacity, steps: seq<Step>) returns (longer: seq<Step>)
    requires Legal(capacity, steps) && Run(capacity, steps).m.consumer.RetestingEmpty?
    requires |Run(capacity, steps).h.delivered| < |Run(capacity, steps).h.accepted|
    ensures Legal(capacity, longer) && Run(capacity, longer).m.consumer.Copying?
    ensures var s, n := Run(capacity, steps), Run(capacity, longer);
            n.h.delivered == s.h.delivered && n.h.accepted == s.h.accepted
  {
    RunKeeps(capacity, steps);
    var reload := NewestHeadShows(Run(capacity, steps));
    OneMoreStep(capacity, steps, reload);
    longer := steps + [reload];
  }

  lemma PopEnds(capacity: Capacity, steps: seq<Step>) returns (longer: seq<Step>)
    requires Legal(capacity, steps) && Run(capacity, steps).m.consumer.Copying?
    ensures Legal(capacity, longer) && Run(capacity, longer).m.consumer.Resting?
    ensures Run(capacity, longer).h.accepted == Run(capacity, steps).h.accepted
    ensures |Run(capacity, steps).h.delivered| < |Run(capacity, longer).h.delivered|
  {
    var copied := CopyEnds(capacity, steps);
    BatchEnds(capacity, copied);
    OneMoreStep(capacity, copied, PublishTail);
    longer := copied + [PublishTail];
  }

  /** A pop asked for at least one record, with a record waiting, can end with records handed over. */
  lemma PopCanEnd(capacity: Capacity, steps: seq<Step>, max: nat) returns (longer: seq<Step>)
    requires Legal(capacity, steps) && Run(capacity, steps).m.consumer.Resting? && max >= 1
    requires |Run(capacity, steps).h.delivered| < |Run(capacity, steps).h.accepted|
    ensures Legal(capacity, longer) && Run(capacity, longer).m.consumer.Resting?
    ensures Run(capacity, longer).h.accepted == Run(capacity, steps).h.accepted
    ensures |Run(capacity, steps).h.delivered| < |Run(capacity, longer).h.delivered|
  {
    longer := PopStarts(capacity, steps, max);
    if Run(capacity, longer).m.consumer.RetestingEmpty? {
      longer := PopRetests(capacity, longer);
    }
    longer := PopEnds(capacity, longer);
  }

  lemma OfferStarts(s: State, rec: Record)
    requires Inv(s) && s.m.producer.Idle?
    ensures Enabled(s.m, Offer(rec))
    ensures var n := Next(s, Offer(rec)); n.m.producer == TestingFull(rec) && n.h == s.h
  {
  }

  lemma TestFullGoesOn(s: State)
    requires Inv(s) && s.m.producer.TestingFull?
    ensures Enabled(s.m, TestFull)
    ensures var n, rec := Next(s, TestFull), s.m.producer.rec;
            (n.m.producer == Writing(rec, 0) || n.m.producer == RetestingFull(rec)) && n.h == s.h
  {
  }

  lemma NewestTailShows(s: State) returns (step: Step)
    requires Inv(s) && s.m.producer.RetestingFull? && |s.h.accepted| - |s.h.delivered| < s.m.capacity
    ensures Enabled(s.m, step)
    ensures var n := Next(s, step);
            n.m.producer == Writing(s.m.producer.rec, 0) &&
            n.h.accepted == s.h.accepted && n.h.delivered == s.h.delivered
  {
    step := ReloadTail(|s.m.tails| - 1);
    FullTest(s, |s.h.delivered|);
  }

  lemma WriteStep(s: State)
    requires Inv(s) && s.m.producer.Writing? && s.m.producer.words < RECORD_WORDS
    ensures Enabled(s.m, WriteWord)
    ensures var n := Next(s, WriteWord);
            n.m.producer == Writing(s.m.producer.rec, s.m.producer.words + 1) && n.h == s.h
  {
  }

  lemma {:induction false} WriteEnds(capacity: Capacity, steps: seq<Step>) returns (longer: seq<Step>)
    requires Legal(capacity, steps) && Run(capacity, steps).m.producer.Writing?
    requires Run(capacity, steps).m.producer.words <= RECORD_WORDS
    ensures Legal(capacity, longer) && Run(capacity, longer).h == Run(capacity, steps).h
    ensures Run(capacity, longer).m.producer == Writing(Run(capacity, steps).m.producer.rec, RECORD_WORDS)
    decreases RECORD_WORDS - Run(capacity, steps).m.producer.words
  {
    var s := Run(capacity, steps);
    if s.m.producer.words == RECORD_WORDS {
      longer := steps;
    } else {
      RunKeeps(capacity, steps);
      WriteStep(s);
      OneMoreStep(capacity, steps, WriteWord);
      longer := WriteEnds(capacity, steps + [WriteWord]);
    }
  }

  lemma PushStarts(capacity: Capacity, steps: seq<Step>, rec: Record) returns (longer: seq<Step>)
    requires Legal(capacity, steps) && Run(capacity, steps).m.producer.Idle?
    ensures Legal(capacity, longer)
    ensures var s, n := Run(capacity, steps), Run(capacity, longer);
            (n.m.producer == Writing(rec, 0) || n.m.producer == RetestingFull(rec)) && n.h == s.h
  {
    RunKeeps(capacity, steps);
    OfferStarts(Run(capacity, steps), rec);
    OneMoreStep(capacity, steps, Offer(rec));
    longer := steps + [Offer(rec)];
    RunKeeps(capacity, longer);
    TestFullGoesOn(Run(capacity, longer));
    OneMoreStep(capacity, longer, TestFull);
    longer := longer + [TestFull];
  }

  lemma PushRetests(capacity: Capacity, steps: seq<Step>) returns (longer: seq<Step>)
    requires Legal(capacity, steps) && Run(capacity, steps).m.producer.RetestingFull?
    requires |Run(capacity, steps).h.accepted| - |Run(capacity, steps).h.delivered| < capacity
    ensures Legal(capacity, longer)
    ensures var s, n := Run(capacity, steps), Run(capacity, longer);
            n.m.producer == Writing(s.m.producer.rec, 0) &&
            n.h.accepted == s.h.accepted && n.h.delivered == s.h.delivered
  {
    RunKeeps(capacity, steps);
    var reload := NewestTailShows(Run(capacity, steps));
    OneMoreStep(capacity, steps, reload);
    longer := steps + [reload];
  }

  lemma PushEnds(capacity: Capacity, steps: seq<Step>) returns (longer: seq<Step>)
    requires Legal(capacity, steps) && Run(capacity, steps).m.producer.Writing?
    requires Run(capacity, steps).m.producer.words <= RECORD_WORDS
    ensures Legal(capacity, longer) && Run(capacity, longer).m.producer.Idle?
    ensures var s, n := Run(capacity, steps), Run(capacity, longer);
            n.h.accepted == s.h.accepted + [s.m.producer.rec] && n.h.delivered == s.h.delivered
  {
    var written := WriteEnds(capacity, steps);
    RunKeeps(capacity, written);
    OneMoreStep(capacity, written, PublishHead);
    longer := written + [PublishHead];
  }

  /** A push into a ring with room can end with its record stored. */
  lemma PushCanEnd(capacity: Capacity, steps: seq<Step>, rec: Record) returns (longer: seq<Step>)
    requires Legal(capacity, steps) && Run(capacity, steps).m.producer.Idle?
    requires |Run(capacity, steps).h.accepted| - |Run(capacity, steps).h.delivered| < capacity
    ensures Legal(capacity, longer) && Run(capacity, longer).m.producer.Idle?
    ensures Run(capacity, longer).h.accepted == Run(capacity, steps).h.accepted + [rec]
    ensures Run(capacity, longer).h.delivered == Run(capacity, steps).h.delivered
  {
    longer := PushStarts(capacity, steps, rec);
    if Run(capacity, longer).m.producer.RetestingFull? {
      longer := PushRetests(capacity, longer);
    }
    longer := PushEnds(capacity, longer);
  }

  // --- leaving ---

  /** Counting after the flag was seen lets the consumer leave exactly when nothing is left; otherwise it goes on. */
  lemma LeavesIff(capacity: Capacity, steps: seq<Step>, at: nat)
    requires Legal(capacity, steps) && Enabled(Run(capacity, steps).m, LoadPending(at))
    ensures var s, n := Run(capacity, steps), Next(Run(capacity, steps), LoadPending(at));
            (n.m.consumer.Exited? <==> s.h.delivered == s.h.accepted) &&
            (n.m.consumer.Resting? <==> s.h.delivered != s.h.accepted)
  {
    RunKeeps(capacity, steps);
    EmptyTest(Run(capacity, steps), at);
  }

  /** Once the producer is done and everything is delivered, the consumer can leave. */
  lemma CanLeave(capacity: Capacity, steps: seq<Step>) returns (longer: seq<Step>)
    requires Legal(capacity, steps)
    requires var s := Run(capacity, steps); s.m.done.Done? && s.m.consumer.Resting? && s.h.delivered == s.h.accepted
    ensures Legal(capacity, longer) && Run(capacity, longer).m.consumer.Exited?
  {
    RunKeeps(capacity, steps);
    OneMoreStep(capacity, steps, LoadDone(true));
    longer := steps + [LoadDone(true)];
    RunKeeps(capacity, longer);
    var newest := |Run(capacity, longer).m.heads| - 1;
    assert Enabled(Run(capacity, longer).m, LoadPending(newest));
    LeavesIff(capacity, longer, newest);
    OneMoreStep(capacity, longer, LoadPending(newest));
    longer := longer + [LoadPending(newest)];
  }
}
