/** The correlator as a state, and what it computes under any interleaving of pushing and processing. */
module Schedule {
  import opened Correlation
  import opened Matching

  const MAX_QUEUED: nat := 65536

  datatype State = State(
    queues: Queues,
    mediaSeen: seq<bool>,
    useMedia: bool,
    unmatched: seq<nat>,
    groups: seq<seq<Frame>>)

  function Start(k: nat): State {
    State(seq(k, j => []), seq(k, j => false), false, Zeros(k), [])
  }

  predicate WellFormed(st: State, k: nat) {
    k >= 2 && |st.queues| == |st.mediaSeen| == |st.unmatched| == k
  }

  predicate HasMedia(fs: seq<Frame>) {
    exists i :: 0 <= i < |fs| && fs[i].media > 0
  }

  predicate AllTrue(b: seq<bool>) {
    forall j :: 0 <= j < |b| ==> b[j]
  }

  function Append(qs: Queues, j: nat, fs: seq<Frame>): (r: Queues)
    requires j < |qs|
    ensures |r| == |qs|
  {
    qs[j := qs[j] + fs]
  }

  function PushTo(st: State, j: nat, fs: seq<Frame>): State
    requires |st.queues| == |st.mediaSeen|
  {
    if j >= |st.queues| then st
    else
      var seen := if HasMedia(fs) then st.mediaSeen[j := true] else st.mediaSeen;
      st.(queues := Append(st.queues, j, fs), mediaSeen := seen, useMedia := AllTrue(seen))
  }

  function Lengths(qs: Queues): (n: seq<nat>)
    ensures |n| == |qs| && forall j :: 0 <= j < |qs| ==> n[j] == |qs[j]|
  {
    seq(|qs|, j requires 0 <= j < |qs| => |qs[j]|)
  }

  function Over(n: nat): nat {
    if n > MAX_QUEUED then n - MAX_QUEUED else 0
  }

  /** How many records of each queue are past the cap. */
  function Excess(qs: Queues): (n: seq<nat>)
    ensures |n| == |qs| && forall j :: 0 <= j < |qs| ==> n[j] == Over(|qs[j]|)
  {
    seq(|qs|, j requires 0 <= j < |qs| => Over(|qs[j]|))
  }

  function Trim(qs: Queues): (r: Queues)
    ensures |r| == |qs| && forall j :: 0 <= j < |qs| ==> |r[j]| <= MAX_QUEUED
  {
    seq(|qs|, j requires 0 <= j < |qs| => qs[j][Over(|qs[j]|)..])
  }

  function ProcessOnce(st: State, window: int, flush: bool): State
    requires |st.queues| >= 1 && |st.unmatched| == |st.queues|
  {
    var m := Merge(st.queues, st.useMedia, window);
    var lost := if flush then Lengths(m.rest) else Excess(m.rest);
    st.(queues := if flush then seq(|m.rest|, j => []) else Trim(m.rest),
        unmatched := Plus(Plus(st.unmatched, m.unmatched), lost),
        groups := st.groups + m.groups)
  }

  datatype Event = Push(stream: nat, frames: seq<Frame>) | Process

  function Step(st: State, ev: Event, window: int): (r: State)
    requires exists k :: WellFormed(st, k)
    ensures WellFormed(r, |st.queues|)
  {
    match ev
    case Push(j, fs) => PushTo(st, j, fs)
    case Process => ProcessOnce(st, window, false)
  }

  /** The state after a schedule of pushes and non flushing calls of Process. */
  function After(k: nat, evs: seq<Event>, window: int): (r: State)
    requires k >= 2
    ensures WellFormed(r, k)
  {
    if |evs| == 0 then Start(k)
    else
      assert WellFormed(After(k, evs[..|evs| - 1], window), k);
      Step(After(k, evs[..|evs| - 1], window), evs[|evs| - 1], window)
  }

  /** What a schedule ends with once the last call flushes. */
  function Finish(k: nat, evs: seq<Event>, window: int): State
    requires k >= 2
  {
    ProcessOnce(After(k, evs, window), window, true)
  }

  /** Every record a schedule pushes, stream by stream, in order. */
  function Pushed(k: nat, evs: seq<Event>): (qs: Queues)
    ensures |qs| == k
  {
    if |evs| == 0 then seq(k, j => [])
    else
      var qs := Pushed(k, evs[..|evs| - 1]);
      match evs[|evs| - 1]
      case Push(j, fs) => if j < k then Append(qs, j, fs) else qs
      case Process => qs
  }

  /** No record was retired because a queue had grown past the cap. */
  predicate NeverCapped(k: nat, evs: seq<Event>, window: int)
    requires k >= 2
  {
    |evs| == 0 ||
    (NeverCapped(k, evs[..|evs| - 1], window) &&
     (evs[|evs| - 1].Process? ==>
        var st := After(k, evs[..|evs| - 1], window);
        forall j :: 0 <= j < k ==> |Merge(st.queues, st.useMedia, window).rest[j]| <= MAX_QUEUED))
  }

  /** Either some stream has no media position at all, or the first record of every stream has one. */
  ghost predicate Settled(all: Queues) {
    || (exists j :: 0 <= j < |all| && !HasMedia(all[j]))
    || (forall j :: 0 <= j < |all| ==> |all[j]| > 0 && all[j][0].media > 0)
  }

  /** The key the whole run pairs on: media position when every stream supplies one. */
  predicate PairsOnMedia(all: Queues) {
    forall j :: 0 <= j < |all| ==> HasMedia(all[j])
  }

  // --- the merge can be interrupted by arrivals ---

  /** The outcome of first deciding a and then b, where b started from what a left. */
  function Then(a: Outcome, b: Outcome): Outcome
    requires |a.unmatched| == |b.unmatched|
  {
    Outcome(a.groups + b.groups, Plus(a.unmatched, b.unmatched), b.rest)
  }

  lemma ThenAssociative(a: Outcome, b: Outcome, c: Outcome)
    requires |a.unmatched| == |b.unmatched| == |c.unmatched|
    ensures Then(Then(a, b), c) == Then(a, Then(b, c))
  {
    assert (a.groups + b.groups) + c.groups == a.groups + (b.groups + c.groups);
    assert Plus(Plus(a.unmatched, b.unmatched), c.unmatched) == Plus(a.unmatched, Plus(b.unmatched, c.unmatched));
  }

  function Grouped(g: seq<Frame>, o: Outcome): Outcome {
    o.(groups := [g] + o.groups)
  }

  function Retired(e: nat, o: Outcome): Outcome
    requires e < |o.unmatched|
  {
    o.(unmatched := o.unmatched[e := o.unmatched[e] + 1])
  }

  lemma ThenGrouped(g: seq<Frame>, o: Outcome, b: Outcome)
    requires |o.unmatched| == |b.unmatched|
    ensures Then(Grouped(g, o), b) == Grouped(g, Then(o, b))
  {
    assert ([g] + o.groups) + b.groups == [g] + (o.groups + b.groups);
  }

  lemma ThenRetired(e: nat, o: Outcome, b: Outcome)
    requires e < |o.unmatched| == |b.unmatched|
    ensures Then(Retired(e, o), b) == Retired(e, Then(o, b))
  {
    assert Plus(o.unmatched[e := o.unmatched[e] + 1], b.unmatched)
        == Plus(o.unmatched, b.unmatched)[e := Plus(o.unmatched, b.unmatched)[e] + 1];
  }

  lemma ThenNothing(k: nat, qs: Queues, b: Outcome)
    requires |b.unmatched| == k
    ensures Then(Outcome([], Zeros(k), qs), b) == b
  {
    assert Plus(Zeros(k), b.unmatched) == b.unmatched;
  }

  lemma NothingThen(a: Outcome, qs: Queues)
    ensures Then(a, Outcome([], Zeros(|a.unmatched|), qs)) == a.(rest := qs)
  {
    assert Plus(a.unmatched, Zeros(|a.unmatched|)) == a.unmatched;
    assert a.groups + [] == a.groups;
  }

  lemma AppendThenPop(qs: Queues, j: nat, fs: seq<Frame>)
    requires j < |qs| && AllNonEmpty(qs)
    ensures var more := Append(qs, j, fs);
            AllNonEmpty(more) && PopAll(more) == Append(PopAll(qs), j, fs) &&
            forall e :: 0 <= e < |qs| ==> PopOne(more, e) == Append(PopOne(qs, e), j, fs)
  {
    var more := Append(qs, j, fs);
    assert more[j][1..] == qs[j][1..] + fs;
    assert PopAll(more) == Append(PopAll(qs), j, fs);
  }

  /** Arrivals leave the merge's next decision as it was. */
  lemma AppendSameStep(qs: Queues, j: nat, fs: seq<Frame>, useMedia: bool)
    requires j < |qs| && AllNonEmpty(qs)
    ensures var more := Append(qs, j, fs);
            AllNonEmpty(more) && Spread(more, useMedia) == Spread(qs, useMedia) &&
            Earliest(more, useMedia, |qs|) == Earliest(qs, useMedia, |qs|) &&
            Fronts(more) == Fronts(qs) && PopAll(more) == Append(PopAll(qs), j, fs) &&
            forall e :: 0 <= e < |qs| ==> PopOne(more, e) == Append(PopOne(qs, e), j, fs)
  {
    AppendThenPop(qs, j, fs);
    SameFronts(qs, Append(qs, j, fs), useMedia, |qs|);
  }

  lemma MergeGroups(qs: Queues, useMedia: bool, window: int)
    requires |qs| >= 1 && AllNonEmpty(qs) && Spread(qs, useMedia) <= window
    ensures Merge(qs, useMedia, window) == Grouped(Fronts(qs), Merge(PopAll(qs), useMedia, window))
  {
  }

  lemma MergeRetires(qs: Queues, useMedia: bool, window: int)
    requires |qs| >= 1 && AllNonEmpty(qs) && Spread(qs, useMedia) > window
    ensures var e := Earliest(qs, useMedia, |qs|);
            Merge(qs, useMedia, window) == Retired(e, Merge(PopOne(qs, e), useMedia, window))
  {
  }

  /** Deciding early and then receiving more is the same as receiving it all first. */
  lemma {:induction false} MergeAppend(qs: Queues, j: nat, fs: seq<Frame>, useMedia: bool, window: int)
    requires j < |qs|
    ensures Merge(Append(qs, j, fs), useMedia, window)
         == Then(Merge(qs, useMedia, window),
                 Merge(Append(Merge(qs, useMedia, window).rest, j, fs), useMedia, window))
    decreases Total(qs)
  {
    if !AllNonEmpty(qs) {
      ThenNothing(|qs|, qs, Merge(Append(qs, j, fs), useMedia, window));
    } else if Spread(qs, useMedia) <= window {
      TotalPopAll(qs);
      MergeAppend(PopAll(qs), j, fs, useMedia, window);
      MergeAppendGrouped(qs, j, fs, useMedia, window);
    } else {
      var e := Earliest(qs, useMedia, |qs|);
      TotalPopOne(qs, e);
      MergeAppend(PopOne(qs, e), j, fs, useMedia, window);
      MergeAppendRetired(qs, j, fs, useMedia, window);
    }
  }

  lemma MergeAppendGrouped(qs: Queues, j: nat, fs: seq<Frame>, useMedia: bool, window: int)
    requires j < |qs| && AllNonEmpty(qs) && Spread(qs, useMedia) <= window
    requires var o := Merge(PopAll(qs), useMedia, window);
             Merge(Append(PopAll(qs), j, fs), useMedia, window) ==
             Then(o, Merge(Append(o.rest, j, fs), useMedia, window))
    ensures var o := Merge(qs, useMedia, window);
            Merge(Append(qs, j, fs), useMedia, window) == Then(o, Merge(Append(o.rest, j, fs), useMedia, window))
  {
    AppendSameStep(qs, j, fs, useMedia);
    MergeGroups(qs, useMedia, window);
    MergeGroups(Append(qs, j, fs), useMedia, window);
    var o := Merge(PopAll(qs), useMedia, window);
    ThenGrouped(Fronts(qs), o, Merge(Append(o.rest, j, fs), useMedia, window));
  }

  lemma MergeAppendRetired(qs: Queues, j: nat, fs: seq<Frame>, useMedia: bool, window: int)
    requires j < |qs| && AllNonEmpty(qs) && Spread(qs, useMedia) > window
    requires var o := Merge(PopOne(qs, Earliest(qs, useMedia, |qs|)), useMedia, window);
             Merge(Append(PopOne(qs, Earliest(qs, useMedia, |qs|)), j, fs), useMedia, window)
             == Then(o, Merge(Append(o.rest, j, fs), useMedia, window))
    ensures var o := Merge(qs, useMedia, window);
            Merge(Append(qs, j, fs), useMedia, window) == Then(o, Merge(Append(o.rest, j, fs), useMedia, window))
  {
    var e := Earliest(qs, useMedia, |qs|);
    AppendSameStep(qs, j, fs, useMedia);
    MergeRetires(qs, useMedia, window);
    MergeRetires(Append(qs, j, fs), useMedia, window);
    var o := Merge(PopOne(qs, e), useMedia, window);
    ThenRetired(e, o, Merge(Append(o.rest, j, fs), useMedia, window));
  }

  lemma {:induction false} SameFronts(a: Queues, b: Queues, useMedia: bool, n: nat)
    requires 1 <= n <= |a| == |b| && AllNonEmpty(a) && AllNonEmpty(b)
    requires forall i :: 0 <= i < |a| ==> a[i][0] == b[i][0]
    ensures Earliest(a, useMedia, n) == Earliest(b, useMedia, n)
    ensures Latest(a, useMedia, n) == Latest(b, useMedia, n)
  {
    if n > 1 {
      SameFronts(a, b, useMedia, n - 1);
    }
  }

  /** The key mode cannot matter while some stream has nothing queued. */
  lemma ModeIrrelevant(qs: Queues, useMedia: bool, window: int)
    requires |qs| >= 1 && !AllNonEmpty(qs)
    ensures Merge(qs, useMedia, window) == Outcome([], Zeros(|qs|), qs)
  {
  }

  // --- schedules ---

  /** What remains to be decided, decided in one go, completes the state to the merge of everything pushed. */
  ghost predicate OnTrack(st: State, past: Queues, mode: bool, window: int)
    requires |past| >= 1
  {
    && |st.queues| == |st.unmatched| == |past|
    && Merge(past, mode, window) == Then(Outcome(st.groups, st.unmatched, []), Merge(st.queues, mode, window))
  }

  lemma OnTrackPush(st: State, past: Queues, j: nat, fs: seq<Frame>, mode: bool, window: int)
    requires j < |past| && |st.mediaSeen| == |past| && OnTrack(st, past, mode, window)
    ensures OnTrack(PushTo(st, j, fs), Append(past, j, fs), mode, window)
  {
    MergeAppend(past, j, fs, mode, window);
    MergeAppend(st.queues, j, fs, mode, window);
    var m := Merge(st.queues, mode, window);
    ThenAssociative(Outcome(st.groups, st.unmatched, []), m, Merge(Append(m.rest, j, fs), mode, window));
  }

  /** A call of Process that caps nothing moves what the merge decides from the queues into the totals. */
  lemma ProcessUncapped(st: State, window: int)
    requires |st.queues| >= 1 && |st.unmatched| == |st.queues|
    requires forall j :: 0 <= j < |st.queues| ==> |Merge(st.queues, st.useMedia, window).rest[j]| <= MAX_QUEUED
    ensures var m := Merge(st.queues, st.useMedia, window);
            var r := ProcessOnce(st, window, false);
            r.queues == m.rest && Outcome(r.groups, r.unmatched, m.rest) ==
            Then(Outcome(st.groups, st.unmatched, []), m)
  {
    var m := Merge(st.queues, st.useMedia, window);
    assert Trim(m.rest) == m.rest;
    var u := Plus(st.unmatched, m.unmatched);
    assert Plus(u, Excess(m.rest)) == u;
  }

  lemma OnTrackProcess(st: State, past: Queues, mode: bool, window: int)
    requires |past| >= 1 && OnTrack(st, past, mode, window)
    requires st.useMedia == mode || !AllNonEmpty(st.queues)
    requires forall j :: 0 <= j < |past| ==> |Merge(st.queues, st.useMedia, window).rest[j]| <= MAX_QUEUED
    ensures OnTrack(ProcessOnce(st, window, false), past, mode, window)
  {
    var m := Merge(st.queues, mode, window);
    assert m == Merge(st.queues, st.useMedia, window);
    ProcessUncapped(st, window);
    var r := ProcessOnce(st, window, false);
    ModeIrrelevant(r.queues, mode, window);
    NothingThen(Outcome(r.groups, r.unmatched, []), r.queues);
  }

  /** Which streams have supplied a media position follows from what was pushed, and the queues are its tails. */
  ghost predicate Seen(st: State, past: Queues) {
    && |st.mediaSeen| == |st.queues| == |past|
    && (|past| >= 1 ==> st.useMedia == AllTrue(st.mediaSeen))
    && (forall j :: 0 <= j < |past| ==> st.mediaSeen[j] == HasMedia(past[j]) && |st.queues[j]| <= |past[j]|)
  }

  lemma HasMediaAppend(a: seq<Frame>, b: seq<Frame>)
    ensures HasMedia(a + b) == (HasMedia(a) || HasMedia(b))
  {
    if HasMedia(a) {
      var i :| 0 <= i < |a| && a[i].media > 0;
      assert (a + b)[i] == a[i];
    }
    if HasMedia(b) {
      var i :| 0 <= i < |b| && b[i].media > 0;
      assert (a + b)[|a| + i] == b[i];
    }
  }

  lemma SeenAtStart(k: nat)
    requires k >= 2
    ensures Seen(Start(k), seq(k, j => []))
  {
    assert !Start(k).mediaSeen[0];
  }

  lemma SeenAfterPush(st: State, past: Queues, j: nat, fs: seq<Frame>)
    requires Seen(st, past) && j < |past|
    ensures Seen(PushTo(st, j, fs), Append(past, j, fs))
  {
    HasMediaAppend(past[j], fs);
  }

  lemma SeenAfterProcess(st: State, past: Queues, window: int)
    requires Seen(st, past) && |past| >= 1 && |st.unmatched| == |past|
    ensures Seen(ProcessOnce(st, window, false), past)
  {
    Conserves(st.queues, st.useMedia, window);
  }

  lemma {:induction false} SeenAlways(k: nat, evs: seq<Event>, window: int)
    requires k >= 2
    ensures Seen(After(k, evs, window), Pushed(k, evs))
  {
    if |evs| == 0 {
      SeenAtStart(k);
    } else {
      var n := |evs| - 1;
      SeenAlways(k, evs[..n], window);
      var st, past := After(k, evs[..n], window), Pushed(k, evs[..n]);
      match evs[n] {
        case Push(j, fs) =>
          if j < k { SeenAfterPush(st, past, j, fs); }
        case Process =>
          SeenAfterProcess(st, past, window);
      }
    }
  }

  /** The merge neither loses nor invents a record. */
  lemma {:induction false} Conserves(qs: Queues, useMedia: bool, window: int)
    requires |qs| >= 1
    ensures var o := Merge(qs, useMedia, window);
            forall j :: 0 <= j < |qs| ==> |qs[j]| == |o.groups| + o.unmatched[j] + |o.rest[j]|
    decreases Total(qs)
  {
    if AllNonEmpty(qs) {
      if Spread(qs, useMedia) <= window {
        TotalPopAll(qs);
        Conserves(PopAll(qs), useMedia, window);
      } else {
        var e := Earliest(qs, useMedia, |qs|);
        TotalPopOne(qs, e);
        Conserves(PopOne(qs, e), useMedia, window);
      }
    }
  }

  /** At every point of every schedule: pushed == grouped + unmatched + queued, for every stream. */
  lemma {:induction false} Conservation(k: nat, evs: seq<Event>, window: int)
    requires k >= 2
    ensures var st := After(k, evs, window);
            forall j :: 0 <= j < k ==> |Pushed(k, evs)[j]| == |st.groups| + st.unmatched[j] + |st.queues[j]|
  {
    if |evs| > 0 {
      var n := |evs| - 1;
      Conservation(k, evs[..n], window);
      if evs[n].Process? {
        var st := After(k, evs[..n], window);
        Conserves(st.queues, st.useMedia, window);
      }
    }
  }

  lemma {:induction false} PushedGrows(k: nat, evs: seq<Event>, n: nat, j: nat)
    requires n <= |evs| && j < k
    ensures Pushed(k, evs[..n])[j] <= Pushed(k, evs)[j]
    decreases |evs|
  {
    if n < |evs| {
      PushedGrows(k, evs[..|evs| - 1], n, j);
      assert evs[..|evs| - 1][..n] == evs[..n];
    } else {
      assert evs[..n] == evs;
    }
  }

  /** While the mode of the state is not yet the mode of the run, some stream is still empty. */
  lemma ModeSettles(k: nat, evs: seq<Event>, n: nat, window: int)
    requires k >= 2 && n <= |evs| && Settled(Pushed(k, evs))
    ensures var st := After(k, evs[..n], window);
            st.useMedia == PairsOnMedia(Pushed(k, evs)) || !AllNonEmpty(st.queues)
  {
    var st, past, all := After(k, evs[..n], window), Pushed(k, evs[..n]), Pushed(k, evs);
    SeenAlways(k, evs[..n], window);
    forall j | 0 <= j < k ensures past[j] <= all[j] && (HasMedia(past[j]) ==> HasMedia(all[j])) {
      PushedGrows(k, evs, n, j);
      HasMediaAppend(past[j], all[j][|past[j]|..]);
      assert past[j] + all[j][|past[j]|..] == all[j];
    }
    if forall j :: 0 <= j < k ==> |all[j]| > 0 && all[j][0].media > 0 {
      forall j | 0 <= j < k && |past[j]| > 0 ensures HasMedia(past[j]) {
        assert past[j][0] == all[j][0];
      }
    }
  }

  lemma {:induction false} AlwaysOnTrack(k: nat, evs: seq<Event>, n: nat, window: int)
    requires k >= 2 && n <= |evs| && Settled(Pushed(k, evs)) && NeverCapped(k, evs[..n], window)
    ensures OnTrack(After(k, evs[..n], window), Pushed(k, evs[..n]), PairsOnMedia(Pushed(k, evs)), window)
    decreases n
  {
    var mode := PairsOnMedia(Pushed(k, evs));
    if n == 0 {
      assert !AllNonEmpty(Start(k).queues) by { assert |Start(k).queues[0]| == 0; }
      assert Plus(Zeros(k), Zeros(k)) == Zeros(k);
    } else {
      assert evs[..n][..n - 1] == evs[..n - 1];
      AlwaysOnTrack(k, evs, n - 1, window);
      var st, past := After(k, evs[..n - 1], window), Pushed(k, evs[..n - 1]);
      match evs[n - 1] {
        case Push(j, fs) =>
          if j < k { OnTrackPush(st, past, j, fs, mode, window); }
        case Process =>
          ModeSettles(k, evs, n - 1, window);
          OnTrackProcess(st, past, mode, window);
      }
    }
  }

  /** Any schedule, once flushed, has decided exactly what one merge of everything pushed decides. */
  lemma ScheduleIsMerge(k: nat, evs: seq<Event>, window: int)
    requires k >= 2 && Settled(Pushed(k, evs)) && NeverCapped(k, evs, window)
    ensures var all := Pushed(k, evs);
            var o := Merge(all, PairsOnMedia(all), window);
            Finish(k, evs, window).groups == o.groups &&
            Finish(k, evs, window).unmatched == Plus(o.unmatched, Lengths(o.rest))
  {
    assert evs[..|evs|] == evs;
    AlwaysOnTrack(k, evs, |evs|, window);
    ModeSettles(k, evs, |evs|, window);
    var st, all := After(k, evs, window), Pushed(k, evs);
    if st.useMedia != PairsOnMedia(all) {
      ModeIrrelevant(st.queues, st.useMedia, window);
      ModeIrrelevant(st.queues, PairsOnMedia(all), window);
    }
  }

  /** The groups and the unmatched counts do not depend on the schedule. */
  lemma ScheduleIndependence(k: nat, a: seq<Event>, b: seq<Event>, window: int)
    requires k >= 2 && Pushed(k, a) == Pushed(k, b) && Settled(Pushed(k, a))
    requires NeverCapped(k, a, window) && NeverCapped(k, b, window)
    ensures Finish(k, a, window).groups == Finish(k, b, window).groups
    ensures Finish(k, a, window).unmatched == Finish(k, b, window).unmatched
  {
    ScheduleIsMerge(k, a, window);
    ScheduleIsMerge(k, b, window);
  }

  /** On any schedule over ordered streams no other matching of the pushed records has more groups. */
  lemma ScheduleIsOptimal(k: nat, evs: seq<Event>, window: int, m: seq<Group>)
    requires k >= 2 && Settled(Pushed(k, evs)) && NeverCapped(k, evs, window)
    requires Ordered(Pushed(k, evs), PairsOnMedia(Pushed(k, evs)))
    requires IsMatching(m, Pushed(k, evs), PairsOnMedia(Pushed(k, evs)), window)
    ensures |m| <= |Finish(k, evs, window).groups|
    ensures exists best: seq<Group> ::
              IsMatching(best, Pushed(k, evs), PairsOnMedia(Pushed(k, evs)), window) &&
              AreMadeOf(Finish(k, evs, window).groups, best, Pushed(k, evs))
  {
    var all := Pushed(k, evs);
    var mode := PairsOnMedia(all);
    ScheduleIsMerge(k, evs, window);
    MergeIsMaximal(m, all, mode, window);
    MergeIsMatching(all, mode, window);
    assert AreMadeOf(Finish(k, evs, window).groups, Picks(all, mode, window), all);
  }

  // --- the queue cap ---

  /** Past the cap of 65536 records the oldest go and are counted; the newest stay. */
  lemma CapKeepsNewest(qs: Queues, j: nat)
    requires j < |qs|
    ensures var gone, kept := Excess(qs)[j], Trim(qs)[j];
            gone + |kept| == |qs[j]| && |kept| == (if |qs[j]| <= 65536 then |qs[j]| else 65536) &&
            forall i :: 0 <= i < |kept| ==> kept[i] == qs[j][gone + i]
  {
  }
}
