/** The counters on the ring itself: every run of the ring's steps is a run of the pipeline, record by record. */
module PipelineOnRing {
  import opened RingProtocol
  import opened RingProofs
  import RingTheorems
  import opened RingCalls
  import L = Pipeline

  /** What Pump reads out of a record: its sequence number, and whether its checksum matches. */
  type Reading = Record -> L.Rec

  function ReadAll(recs: seq<Record>, read: Reading): (rs: seq<L.Rec>)
    ensures |rs| == |recs| && forall i :: 0 <= i < |recs| ==> rs[i] == read(recs[i])
  {
    seq(|recs|, i requires 0 <= i < |recs| => read(recs[i]))
  }

  /** Pushes that came to an end: stored or given up. */
  function Tried(s: State): nat {
    |s.h.accepted| + s.m.dropped
  }

  /** The producer numbers its pushes, from one. */
  predicate NumbersNext(s: State, step: Step, read: Reading) {
    step.Offer? ==> read(step.rec).number == Tried(s) + 1
  }

  predicate Numbered(capacity: Capacity, steps: seq<Step>, read: Reading)
    requires Legal(capacity, steps)
  {
    |steps| > 0 ==>
      Numbered(capacity, steps[..|steps| - 1], read) &&
      NumbersNext(Run(capacity, steps[..|steps| - 1]), steps[|steps| - 1], read)
  }

  /** Whether a step ends a push: with the record stored, or given up. */
  function OutcomeOf(m: Machine, step: Step): seq<bool>
    requires Enabled(m, step)
  {
    if step.PublishHead? then [true]
    else if step.ReloadTail? && LooksFull(m, m.tails[step.at]) then [false]
    else []
  }

  /** What became of each push of a run. */
  function Outcomes(capacity: Capacity, steps: seq<Step>): seq<bool>
    requires Legal(capacity, steps)
  {
    if |steps| == 0 then []
    else
      var before := steps[..|steps| - 1];
      Outcomes(capacity, before) + OutcomeOf(Run(capacity, before).m, steps[|steps| - 1])
  }

  /** What a step completes for the counters: a push stored or given up, or a batch taken out. */
  function EventsOf(m: Machine, step: Step, read: Reading): (evs: seq<L.Event>)
    requires Enabled(m, step)
    ensures |evs| <= 1
  {
    match step
    case PublishHead => [L.Push(true, read(m.producer.rec).intact)]
    case ReloadTail(at) => if LooksFull(m, m.tails[at]) then [L.Push(false, read(m.producer.rec).intact)] else []
    case PublishTail => [L.Pump(|m.consumer.out|)]
    case _ => []
  }

  function EventsOfRun(capacity: Capacity, steps: seq<Step>, read: Reading): seq<L.Event>
    requires Legal(capacity, steps)
  {
    if |steps| == 0 then []
    else
      var before := steps[..|steps| - 1];
      EventsOfRun(capacity, before, read) + EventsOf(Run(capacity, before).m, steps[|steps| - 1], read)
  }

  /** The pipeline's queue is what the ring holds, its totals are those of the records the ring delivered, and the
      record under way carries the next number. */
  ghost predicate InStep(st: L.Stack, s: State, read: Reading) {
    && |s.h.delivered| <= |s.h.accepted|
    && st.head == |s.h.accepted| && st.popped == |s.h.delivered| && st.pushDropped == s.m.dropped
    && st.seqNumber == Tried(s) && st.forgotten == L.ZERO
    && st.queue == ReadAll(RingTheorems.Pending(s), read)
    && st.totals == L.CountAll(L.ZERO, ReadAll(s.h.delivered, read))
    && (Holds(s.m) ==> read(s.m.producer.rec).number == Tried(s) + 1)
  }

  /** The pipeline after the events of a step, and whether it could take them. */
  predicate Takes(st: L.Stack, evs: seq<L.Event>, capacity: nat)
    requires |evs| <= 1
  {
    evs == [] || L.Legal(st, evs[0], capacity)
  }

  function Taken(st: L.Stack, evs: seq<L.Event>): L.Stack
    requires |evs| <= 1
  {
    if evs == [] then st else L.Step(st, evs[0])
  }

  lemma StoreInStep(st: L.Stack, s: State, read: Reading)
    requires Inv(s) && Enabled(s.m, PublishHead) && InStep(st, s, read)
    ensures var evs := EventsOf(s.m, PublishHead, read);
            Takes(st, evs, s.m.capacity) && InStep(Taken(st, evs), Next(s, PublishHead), read)
  {
    RingTheorems.RefinesQueueHere(s, PublishHead);
    var rec := s.m.producer.rec;
    assert RingTheorems.Pending(Next(s, PublishHead)) == RingTheorems.Pending(s) + [rec];
    assert L.Rec(st.seqNumber + 1, read(rec).intact) == read(rec);
  }

  lemma TakenAreRead(delivered: seq<Record>, out: seq<Record>, rest: seq<Record>, read: Reading)
    ensures ReadAll(out + rest, read)[..|out|] == ReadAll(out, read)
    ensures ReadAll(out + rest, read)[|out|..] == ReadAll(rest, read)
    ensures L.CountAll(L.ZERO, ReadAll(delivered + out, read)) ==
            L.CountAll(L.CountAll(L.ZERO, ReadAll(delivered, read)), ReadAll(out, read))
  {
    assert ReadAll(delivered + out, read) == ReadAll(delivered, read) + ReadAll(out, read);
    L.CountAllJoins(L.ZERO, ReadAll(delivered, read), ReadAll(out, read));
  }

  lemma TakeInStep(st: L.Stack, s: State, read: Reading)
    requires Inv(s) && Enabled(s.m, PublishTail) && InStep(st, s, read)
    ensures var evs := EventsOf(s.m, PublishTail, read);
            Takes(st, evs, s.m.capacity) && InStep(Taken(st, evs), Next(s, PublishTail), read)
  {
    RingTheorems.DequeueStep(s);
    var rest, out := RingTheorems.Pending(Next(s, PublishTail)), s.m.consumer.out;
    assert RingTheorems.Pending(s) == out + rest;
    TakenAreRead(s.h.delivered, out, rest, read);
    assert L.Batch(st, |out|) == ReadAll(out, read);
  }

  lemma GiveUpInStep(st: L.Stack, s: State, at: nat, read: Reading)
    requires Inv(s) && Enabled(s.m, ReloadTail(at)) && InStep(st, s, read)
    ensures var evs := EventsOf(s.m, ReloadTail(at), read);
            Takes(st, evs, s.m.capacity) && InStep(Taken(st, evs), Next(s, ReloadTail(at)), read)
  {
    FullTest(s, s.h.tailCounts[at]);
    assert RingTheorems.Pending(Next(s, ReloadTail(at))) == RingTheorems.Pending(s);
  }

  lemma OtherInStep(st: L.Stack, s: State, step: Step, read: Reading)
    requires Inv(s) && Enabled(s.m, step) && InStep(st, s, read) && NumbersNext(s, step, read)
    requires !step.PublishHead? && !step.PublishTail? && !step.ReloadTail?
    ensures EventsOf(s.m, step, read) == [] && InStep(st, Next(s, step), read)
  {
    assert RingTheorems.Pending(Next(s, step)) == RingTheorems.Pending(s);
  }

  lemma StepInStep(st: L.Stack, s: State, step: Step, read: Reading)
    requires Inv(s) && Enabled(s.m, step) && InStep(st, s, read) && NumbersNext(s, step, read)
    ensures var evs := EventsOf(s.m, step, read);
            Takes(st, evs, s.m.capacity) && InStep(Taken(st, evs), Next(s, step), read)
  {
    match step
    case PublishHead => StoreInStep(st, s, read);
    case PublishTail => TakeInStep(st, s, read);
    case ReloadTail(at) => GiveUpInStep(st, s, at, read);
    case _ => OtherInStep(st, s, step, read);
  }

  lemma OutcomeIsOffered(st: L.Stack, m: Machine, step: Step, read: Reading)
    requires Enabled(m, step)
    ensures Taken(st, EventsOf(m, step, read)).offered == st.offered + OutcomeOf(m, step)
  {
    assert st.offered + [] == st.offered;
  }

  lemma MoreEvents(evs: seq<L.Event>, more: seq<L.Event>, capacity: nat)
    requires |more| <= 1 && L.LegalRun(evs, capacity) && Takes(L.After(evs), more, capacity)
    ensures L.LegalRun(evs + more, capacity) && L.After(evs + more) == Taken(L.After(evs), more)
  {
    if more == [] {
      assert evs + more == evs;
    } else {
      assert (evs + more)[..|evs|] == evs;
    }
  }

  /** Every run of the ring, stale loads and all, is a legal run of the pipeline with the same records in its queue, the
      totals of the records delivered, and the same pushes lost. */
  lemma {:induction false} RingDrivesPipeline(capacity: Capacity, steps: seq<Step>, read: Reading)
    requires Legal(capacity, steps) && Numbered(capacity, steps, read)
    ensures var evs := EventsOfRun(capacity, steps, read);
            L.LegalRun(evs, capacity) && InStep(L.After(evs), Run(capacity, steps), read) &&
            L.After(evs).offered == Outcomes(capacity, steps)
  {
    if |steps| > 0 {
      var before, step := steps[..|steps| - 1], steps[|steps| - 1];
      var evs, s := EventsOfRun(capacity, before, read), Run(capacity, before);
      RingDrivesPipeline(capacity, before, read);
      RunKeeps(capacity, before);
      StepInStep(L.After(evs), s, step, read);
      OutcomeIsOffered(L.After(evs), s.m, step, read);
      MoreEvents(evs, EventsOf(s.m, step, read), capacity);
    }
  }

  /** What Pump counts over the records the ring delivered. */
  function Counted(s: State, read: Reading): L.Tally {
    L.CountAll(L.ZERO, ReadAll(s.h.delivered, read))
  }

  /** Pushes tried = accepted + dropped, accepted = delivered + pending, delivered = records + checksum errors. */
  ghost predicate RingConserved(tried: nat, s: State, read: Reading) {
    && |s.h.delivered| <= |s.h.accepted|
    && tried == |s.h.accepted| + s.m.dropped
    && |s.h.accepted| == |s.h.delivered| + |RingTheorems.Pending(s)|
    && |s.h.delivered| == Counted(s, read).records + Counted(s, read).errors
  }

  /** Conservation on every run of the ring. */
  lemma RingConserves(capacity: Capacity, steps: seq<Step>, read: Reading)
    requires Legal(capacity, steps)
    ensures RingConserved(|Outcomes(capacity, steps)|, Run(capacity, steps), read)
  {
    var s := Run(capacity, steps);
    RunKeeps(capacity, steps);
    OutcomesAreTried(capacity, steps);
    L.CountAllCounts(L.ZERO, ReadAll(s.h.delivered, read));
  }

  lemma OneOutcome(s: State, step: Step)
    requires Enabled(s.m, step)
    ensures Tried(Next(s, step)) == Tried(s) + |OutcomeOf(s.m, step)|
  {
  }

  lemma {:induction false} OutcomesAreTried(capacity: Capacity, steps: seq<Step>)
    requires Legal(capacity, steps)
    ensures |Outcomes(capacity, steps)| == Tried(Run(capacity, steps))
  {
    if |steps| > 0 {
      var before := steps[..|steps| - 1];
      OutcomesAreTried(capacity, before);
      OneOutcome(Run(capacity, before), steps[|steps| - 1]);
    }
  }

  /** Every record offered has a matching checksum. */
  predicate OffersIntact(steps: seq<Step>, read: Reading) {
    forall i :: 0 <= i < |steps| && steps[i].Offer? ==> read(steps[i].rec).intact
  }

  predicate HoldsIntact(m: Machine, read: Reading) {
    Holds(m) ==> read(m.producer.rec).intact
  }

  lemma HeldStaysIntact(s: State, step: Step, read: Reading)
    requires Enabled(s.m, step) && HoldsIntact(s.m, read) && (step.Offer? ==> read(step.rec).intact)
    ensures HoldsIntact(Next(s, step).m, read) && L.IntactRun(EventsOf(s.m, step, read))
  {
  }

  lemma {:induction false} RingRunsAreIntact(capacity: Capacity, steps: seq<Step>, read: Reading)
    requires Legal(capacity, steps) && OffersIntact(steps, read)
    ensures L.IntactRun(EventsOfRun(capacity, steps, read)) && HoldsIntact(Run(capacity, steps).m, read)
  {
    if |steps| > 0 {
      var before := steps[..|steps| - 1];
      RingRunsAreIntact(capacity, before, read);
      HeldStaysIntact(Run(capacity, before), steps[|steps| - 1], read);
    }
  }

  /** The last record counted ends what came before it, and the gaps are the runs of lost pushes there. */
  predicate GapsAreRuns(t: L.Tally, offered: seq<bool>) {
    t.last <= |offered| && t.gaps == L.DropRuns(offered[..t.last])
  }

  lemma CountedInStep(st: L.Stack, s: State, read: Reading)
    requires InStep(st, s, read)
    ensures st.totals == Counted(s, read) && st.forgotten == L.ZERO
  {
  }

  lemma GapsOfTotals(st: L.Stack)
    requires L.GapsMatch(st) && st.forgotten == L.ZERO
    ensures GapsAreRuns(st.totals, st.offered)
  {
  }

  /** With no corrupt record, the gaps between the numbers of the records the ring delivered are the maximal runs of
      pushes it gave up before the last of them. */
  lemma RingGapsAreDropRuns(capacity: Capacity, steps: seq<Step>, read: Reading)
    requires Legal(capacity, steps) && Numbered(capacity, steps, read) && OffersIntact(steps, read)
    ensures GapsAreRuns(Counted(Run(capacity, steps), read), Outcomes(capacity, steps))
  {
    RingDrivesPipeline(capacity, steps, read);
    RingRunsAreIntact(capacity, steps, read);
    var evs := EventsOfRun(capacity, steps, read);
    L.GapsAreDropRuns(evs, capacity);
    CountedInStep(L.After(evs), Run(capacity, steps), read);
    GapsOfTotals(L.After(evs));
  }
}
