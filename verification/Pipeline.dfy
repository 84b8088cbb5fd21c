/** Every counter from the producer's sequence number to the aggregator's totals, over whole runs. */
module Pipeline {

  /** A record in the ring: its sequence number, and whether its checksum will match when it is read. */
  datatype Rec = Rec(number: nat, intact: bool)

  datatype Tally = Tally(records: nat, errors: nat, gaps: nat, last: nat)

  /** One record through StreamAggregator::Pump. */
  function Count(t: Tally, r: Rec): Tally {
    if !r.intact then t.(errors := t.errors + 1)
    else Tally(t.records + 1, t.errors, t.gaps + (if t.last != 0 && r.number != t.last + 1 then 1 else 0), r.number)
  }

  function CountAll(t: Tally, rs: seq<Rec>): Tally {
    if rs == [] then t else Count(CountAll(t, rs[..|rs| - 1]), rs[|rs| - 1])
  }

  lemma {:induction false} CountAllJoins(t: Tally, a: seq<Rec>, b: seq<Rec>)
    ensures CountAll(t, a + b) == CountAll(CountAll(t, a), b)
    decreases |b|
  {
    if b == [] {
      assert a + b == a;
    } else {
      assert (a + b)[..|a + b| - 1] == a + b[..|b| - 1];
      CountAllJoins(t, a, b[..|b| - 1]);
    }
  }

  class StreamAggregator {
    var records: nat
    var checksumErrors: nat
    var sequenceGaps: nat
    var lastSeq: nat

    constructor ()
      ensures Totals() == Tally(0, 0, 0, 0)
    {
      records, checksumErrors, sequenceGaps, lastSeq := 0, 0, 0, 0;
    }

    function Totals(): Tally
      reads this
    {
      Tally(records, checksumErrors, sequenceGaps, lastSeq)
    }

    /** The counting loop, over a popped batch. */
    method Pump(batch: seq<Rec>)
      modifies this
      ensures Totals() == CountAll(old(Totals()), batch)
    {
      for i := 0 to |batch|
        invariant Totals() == CountAll(old(Totals()), batch[..i])
      {
        assert batch[..i + 1][..i] == batch[..i];
        var rec := batch[i];
        if !rec.intact {
          checksumErrors := checksumErrors + 1;
          continue;
        }
        if lastSeq != 0 && rec.number != lastSeq + 1 {
          sequenceGaps := sequenceGaps + 1;
        }
        lastSeq := rec.number;
        records := records + 1;
      }
      assert batch[..|batch|] == batch;
    }

    /** The last sequence number is kept. */
    method ResetStats()
      modifies this
      ensures Totals() == Tally(0, 0, 0, old(lastSeq))
    {
      records, checksumErrors, sequenceGaps := 0, 0, 0;
    }
  }

  /** A push with what became of it, a pump with its batch limit, or a reset of the totals. */
  datatype Event = Push(accepted: bool, intact: bool) | Pump(limit: nat) | Reset

  /** offered: what became of each push, in order. forgotten: what earlier resets cleared. */
  datatype Stack = Stack(
    seqNumber: nat, head: nat, pushDropped: nat, queue: seq<Rec>, popped: nat,
    totals: Tally, forgotten: Tally, offered: seq<bool>)

  const START: Stack := Stack(0, 0, 0, [], 0, Tally(0, 0, 0, 0), Tally(0, 0, 0, 0), [])

  /** A push is stored only where there is room. It is refused only when head is a whole capacity past some tail,
      so never before capacity records have been stored. */
  predicate Legal(st: Stack, ev: Event, capacity: nat) {
    ev.Push? ==> if ev.accepted then |st.queue| < capacity else st.head >= capacity
  }

  function Batch(st: Stack, limit: nat): (b: seq<Rec>) {
    if limit < |st.queue| then st.queue[..limit] else st.queue
  }

  function Step(st: Stack, ev: Event): Stack {
    match ev
    case Push(accepted, intact) =>
      var number := st.seqNumber + 1;
      var s := st.(seqNumber := number, offered := st.offered + [accepted]);
      if accepted then s.(head := s.head + 1, queue := s.queue + [Rec(number, intact)])
      else s.(pushDropped := s.pushDropped + 1)
    case Pump(limit) =>
      var b := Batch(st, limit);
      st.(queue := st.queue[|b|..], popped := st.popped + |b|, totals := CountAll(st.totals, b))
    case Reset =>
      st.(totals := Tally(0, 0, 0, st.totals.last),
          forgotten := Tally(st.forgotten.records + st.totals.records, st.forgotten.errors + st.totals.errors,
                             st.forgotten.gaps + st.totals.gaps, 0))
  }

  function After(evs: seq<Event>): Stack {
    if evs == [] then START else Step(After(evs[..|evs| - 1]), evs[|evs| - 1])
  }

  predicate LegalRun(evs: seq<Event>, capacity: nat) {
    evs == [] || (LegalRun(evs[..|evs| - 1], capacity) && Legal(After(evs[..|evs| - 1]), evs[|evs| - 1], capacity))
  }

  // --- conservation ---

  predicate Conserved(st: Stack) {
    && st.seqNumber == st.head + st.pushDropped
    && st.head == st.popped + |st.queue|
    && st.popped == st.forgotten.records + st.forgotten.errors + st.totals.records + st.totals.errors
  }

  lemma {:induction false} CountAllCounts(t: Tally, rs: seq<Rec>)
    ensures var u := CountAll(t, rs); u.records + u.errors == t.records + t.errors + |rs|
  {
    if rs != [] {
      CountAllCounts(t, rs[..|rs| - 1]);
    }
  }

  lemma StepConserves(st: Stack, ev: Event, capacity: nat)
    requires Conserved(st) && |st.queue| <= capacity && Legal(st, ev, capacity)
    ensures Conserved(Step(st, ev)) && |Step(st, ev).queue| <= capacity
  {
    if ev.Pump? {
      CountAllCounts(st.totals, Batch(st, ev.limit));
    }
  }

  /** At all times: every number given out was stored or dropped, everything stored was popped or is pending,
      and everything popped was counted as a record or as a checksum error, now or before a reset. */
  lemma {:induction false} Conservation(evs: seq<Event>, capacity: nat)
    requires LegalRun(evs, capacity)
    ensures Conserved(After(evs)) && |After(evs).queue| <= capacity
  {
    if evs != [] {
      Conservation(evs[..|evs| - 1], capacity);
      StepConserves(After(evs[..|evs| - 1]), evs[|evs| - 1], capacity);
    }
  }

  // --- gaps ---

  /** Numbers of the accepted pushes. */
  function Accepted(offered: seq<bool>): (ns: seq<nat>) {
    if offered == [] then []
    else
      var n := |offered| - 1;
      Accepted(offered[..n]) + if offered[n] then [n + 1] else []
  }

  /** Maximal runs of dropped pushes that an accepted one ends. */
  function DropRuns(offered: seq<bool>): nat {
    if |offered| < 2 then 0
    else
      var n := |offered| - 1;
      DropRuns(offered[..n]) + if offered[n] && !offered[n - 1] then 1 else 0
  }

  function LastOf(ns: seq<nat>): nat {
    if ns == [] then 0 else ns[|ns| - 1]
  }

  predicate AllIntact(rs: seq<Rec>) {
    forall i :: 0 <= i < |rs| ==> rs[i].intact
  }

  predicate IntactRun(evs: seq<Event>) {
    forall i :: 0 <= i < |evs| ==> evs[i].Push? ==> evs[i].intact
  }

  function Records(ns: seq<nat>): (rs: seq<Rec>)
    ensures |rs| == |ns| && AllIntact(rs)
  {
    seq(|ns|, i requires 0 <= i < |ns| => Rec(ns[i], true))
  }

  lemma {:induction false} AcceptedInRange(offered: seq<bool>, i: nat)
    requires i < |Accepted(offered)|
    ensures 1 <= Accepted(offered)[i] <= |offered|
    decreases |offered|
  {
    var n := |offered| - 1;
    if i < |Accepted(offered[..n])| {
      AcceptedInRange(offered[..n], i);
    }
  }

  /** The first k accepted pushes are those up to the k-th. */
  lemma {:induction false} AcceptedPrefix(offered: seq<bool>, k: nat)
    requires k <= |Accepted(offered)|
    ensures var m := LastOf(Accepted(offered)[..k]);
            m <= |offered| && Accepted(offered[..m]) == Accepted(offered)[..k]
    decreases |offered|
  {
    var ns := Accepted(offered);
    if k > 0 {
      var n := |offered| - 1;
      var before := Accepted(offered[..n]);
      AcceptedInRange(offered, k - 1);
      if k <= |before| {
        AcceptedPrefix(offered[..n], k);
        assert ns[..k] == before[..k];
        var m := LastOf(before[..k]);
        assert offered[..n][..m] == offered[..m];
      } else {
        assert ns[..k] == ns && offered[..n + 1] == offered;
      }
    }
  }

  /** What counting all accepted pushes gives. */
  lemma {:induction false} CountAccepted(offered: seq<bool>)
    requires offered != [] ==> offered[0]
    ensures var t := CountAll(Tally(0, 0, 0, 0), Records(Accepted(offered)));
            t.last == LastOf(Accepted(offered)) && t.gaps == DropRuns(offered)
    ensures offered != [] && offered[|offered| - 1] ==> LastOf(Accepted(offered)) == |offered|
    ensures offered != [] ==> 0 < LastOf(Accepted(offered)) <= |offered|
    ensures offered != [] && LastOf(Accepted(offered)) == |offered| ==> offered[|offered| - 1]
  {
    if offered != [] {
      var n := |offered| - 1;
      var before := Accepted(offered[..n]);
      CountAccepted(offered[..n]);
      if offered[n] {
        var rs := Records(before + [n + 1]);
        assert rs[..|rs| - 1] == Records(before);
      } else {
        assert before + [] == before;
      }
    }
  }

  /** Counting from other totals only shifts the number of gaps. */
  lemma {:induction false} CountAllShifts(t: Tally, u: Tally, rs: seq<Rec>)
    requires t.last == u.last
    ensures CountAll(t, rs).last == CountAll(u, rs).last
    ensures CountAll(t, rs).gaps - t.gaps == CountAll(u, rs).gaps - u.gaps
  {
    if rs != [] {
      CountAllShifts(t, u, rs[..|rs| - 1]);
    }
  }

  const ZERO: Tally := Tally(0, 0, 0, 0)

  /** The totals are what counting the first popped accepted records gives; the rest are in the ring. */
  predicate Tracks(st: Stack) {
    var ns := Accepted(st.offered);
    && st.popped <= |ns| == st.head && st.seqNumber == |st.offered|
    && (st.offered != [] ==> st.offered[0])
    && st.queue == Records(ns[st.popped..])
    && var u := CountAll(ZERO, Records(ns[..st.popped]));
       st.totals.last == u.last && st.totals.gaps + st.forgotten.gaps == u.gaps
  }

  lemma AcceptedMore(offered: seq<bool>, accepted: bool)
    ensures Accepted(offered + [accepted]) == Accepted(offered) + if accepted then [|offered| + 1] else []
  {
    assert (offered + [accepted])[..|offered|] == offered;
  }

  lemma StoredTracks(ns: seq<nat>, popped: nat, n: nat)
    requires popped <= |ns|
    ensures (ns + [n])[..popped] == ns[..popped]
    ensures Records((ns + [n])[popped..]) == Records(ns[popped..]) + [Rec(n, true)]
  {
  }

  lemma PushTracks(st: Stack, ev: Event, capacity: nat)
    requires Tracks(st) && ev.Push? && ev.intact && capacity >= 1 && Legal(st, ev, capacity)
    ensures Tracks(Step(st, ev))
  {
    AcceptedMore(st.offered, ev.accepted);
    if ev.accepted {
      StoredTracks(Accepted(st.offered), st.popped, |st.offered| + 1);
    } else {
      assert Accepted(st.offered) + [] == Accepted(st.offered);
    }
  }

  lemma PumpTracks(st: Stack, limit: nat)
    requires Tracks(st)
    ensures Tracks(Step(st, Pump(limit)))
  {
    var t := Step(st, Pump(limit));
    var ns, b := Accepted(st.offered), Batch(st, limit);
    var done := Records(ns[..st.popped]);
    assert Records(ns[..t.popped]) == done + b;
    CountAllJoins(ZERO, done, b);
    CountAllShifts(st.totals, CountAll(ZERO, done), b);
  }

  lemma {:induction false} AlwaysTracks(evs: seq<Event>, capacity: nat)
    requires capacity >= 1 && LegalRun(evs, capacity) && IntactRun(evs)
    ensures Tracks(After(evs))
  {
    if evs != [] {
      AlwaysTracks(evs[..|evs| - 1], capacity);
      var st, ev := After(evs[..|evs| - 1]), evs[|evs| - 1];
      match ev
      case Push(_, _) => PushTracks(st, ev, capacity);
      case Pump(limit) => PumpTracks(st, limit);
      case Reset =>
    }
  }

  /** The gaps counted so far, resets included, are the maximal runs of dropped pushes before the last record
      delivered. */
  predicate GapsMatch(st: Stack) {
    && st.totals.last <= |st.offered|
    && st.totals.gaps + st.forgotten.gaps == DropRuns(st.offered[..st.totals.last])
  }

  lemma TrackedGaps(st: Stack)
    requires Tracks(st)
    ensures GapsMatch(st)
  {
    AcceptedPrefix(st.offered, st.popped);
    var m := LastOf(Accepted(st.offered)[..st.popped]);
    CountAccepted(st.offered[..m]);
  }

  /** With no corrupt record the gaps match on every run. */
  lemma GapsAreDropRuns(evs: seq<Event>, capacity: nat)
    requires capacity >= 1 && LegalRun(evs, capacity) && IntactRun(evs)
    ensures GapsMatch(After(evs))
  {
    AlwaysTracks(evs, capacity);
    TrackedGaps(After(evs));
  }

  // --- what one pump counts ---

  /** The records whose checksum matched. */
  function Intact(rs: seq<Rec>): seq<Rec> {
    if rs == [] then []
    else Intact(rs[..|rs| - 1]) + if rs[|rs| - 1].intact then [rs[|rs| - 1]] else []
  }

  /** A corrupt record is counted as an error and leaves everything else alone. */
  lemma {:induction false} CorruptOnlyCount(t: Tally, rs: seq<Rec>)
    ensures |Intact(rs)| <= |rs|
    ensures CountAll(t, rs) == CountAll(t, Intact(rs)).(errors := t.errors + |rs| - |Intact(rs)|)
    ensures CountAll(t, Intact(rs)).errors == t.errors
  {
    if rs != [] {
      var before, last := rs[..|rs| - 1], rs[|rs| - 1];
      CorruptOnlyCount(t, before);
      assert (Intact(before) + [last])[..|Intact(before)|] == Intact(before);
      assert Intact(before) + [] == Intact(before);
    }
  }

  /** Where a number does not follow the one before it. */
  predicate JumpsAt(ns: seq<nat>, i: int) {
    1 <= i < |ns| && ns[i] != ns[i - 1] + 1
  }

  function Jumps(ns: seq<nat>): set<int> {
    set i | 0 <= i < |ns| && JumpsAt(ns, i)
  }

  lemma OneMoreJump(ns: seq<nat>, n: nat)
    ensures |Jumps(ns + [n])| == |Jumps(ns)| + if ns != [] && n != ns[|ns| - 1] + 1 then 1 else 0
  {
    assert forall i :: 0 <= i < |ns| ==> JumpsAt(ns + [n], i) == JumpsAt(ns, i);
    assert Jumps(ns + [n]) == Jumps(ns) + if ns != [] && n != ns[|ns| - 1] + 1 then {|ns|} else {};
  }

  /** On intact records with numbers from one on, the gaps are the places where a number does not follow the one
      before. */
  lemma {:induction false} GapsAreJumps(ns: seq<nat>)
    requires forall i :: 0 <= i < |ns| ==> ns[i] > 0
    ensures var t := CountAll(ZERO, Records(ns));
            t.gaps == |Jumps(ns)| && t.records == |ns| && t.last == LastOf(ns)
  {
    if ns == [] {
      assert Jumps(ns) == {};
    } else {
      var before, n := ns[..|ns| - 1], ns[|ns| - 1];
      GapsAreJumps(before);
      OneMoreJump(before, n);
      assert ns == before + [n] && Records(ns)[..|before|] == Records(before);
    }
  }
}
