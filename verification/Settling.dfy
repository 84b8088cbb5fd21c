/** Exactly which records may lack a media position without the schedule mattering. */
module Settling {
  import opened Correlation
  import opened Schedule
  import M = Matching

  /** Which records of each stream have a media position. */
  type Shape = seq<seq<bool>>

  predicate HasShape(all: Queues, shape: Shape) {
    && |all| == |shape|
    && (forall j :: 0 <= j < |shape| ==> |all[j]| == |shape[j]|)
    && forall j, i :: 0 <= j < |shape| && 0 <= i < |shape[j]| ==> (all[j][i].media > 0 <==> shape[j][i])
  }

  predicate AnyPosition(present: seq<bool>) {
    exists i :: 0 <= i < |present| && present[i]
  }

  /** Some stream has no position at all, or every stream's first record has one. */
  predicate SettledShape(shape: Shape) {
    || (exists j :: 0 <= j < |shape| && !AnyPosition(shape[j]))
    || (forall j :: 0 <= j < |shape| ==> |shape[j]| > 0 && shape[j][0])
  }

  lemma PositionsAreMedia(all: Queues, shape: Shape, j: nat)
    requires HasShape(all, shape) && j < |shape|
    ensures HasMedia(all[j]) <==> AnyPosition(shape[j])
  {
    if HasMedia(all[j]) {
      var i :| 0 <= i < |all[j]| && all[j][i].media > 0;
      assert shape[j][i];
    }
    if AnyPosition(shape[j]) {
      var i :| 0 <= i < |shape[j]| && shape[j][i];
      assert all[j][i].media > 0;
    }
  }

  lemma ShapeSettles(all: Queues, shape: Shape)
    requires HasShape(all, shape) && SettledShape(shape)
    ensures Settled(all)
  {
    forall j | 0 <= j < |shape|
      ensures HasMedia(all[j]) <==> AnyPosition(shape[j])
    {
      PositionsAreMedia(all, shape, j);
    }
  }

  // --- pushing to every stream in turn ---

  function Pushes(parts: Queues, n: nat): seq<Event>
    requires n <= |parts|
  {
    if n == 0 then [] else Pushes(parts, n - 1) + [Push(n - 1, parts[n - 1])]
  }

  function Joined(qs: Queues, parts: Queues, n: nat): (r: Queues)
    requires n <= |qs| == |parts|
    ensures |r| == |qs|
  {
    seq(|qs|, j requires 0 <= j < |qs| => if j < n then qs[j] + parts[j] else qs[j])
  }

  lemma AfterOneMore(k: nat, evs: seq<Event>, ev: Event, window: int)
    requires k >= 2
    ensures After(k, evs + [ev], window) == Step(After(k, evs, window), ev, window)
    ensures Pushed(k, evs + [ev]) ==
            if ev.Push? && ev.stream < k then Append(Pushed(k, evs), ev.stream, ev.frames) else Pushed(k, evs)
    ensures NeverCapped(k, evs, window) && ev.Push? ==> NeverCapped(k, evs + [ev], window)
  {
    assert (evs + [ev])[..|evs|] == evs;
  }

  lemma JoinedOneMore(qs: Queues, parts: Queues, n: nat)
    requires n < |qs| == |parts|
    ensures Append(Joined(qs, parts, n), n, parts[n]) == Joined(qs, parts, n + 1)
  {
  }

  /** What pushes leave as they find it, and what they add to. */
  ghost predicate PushesAdd(k: nat, was: seq<Event>, now: seq<Event>, parts: Queues, n: nat, window: int)
    requires k >= 2 && n <= |parts| == k
  {
    && After(k, now, window).queues == Joined(After(k, was, window).queues, parts, n)
    && After(k, now, window).groups == After(k, was, window).groups
    && Pushed(k, now) == Joined(Pushed(k, was), parts, n)
    && (NeverCapped(k, was, window) ==> NeverCapped(k, now, window))
  }

  lemma OnePushAdds(k: nat, was: seq<Event>, now: seq<Event>, parts: Queues, n: nat, window: int)
    requires k >= 2 && n < |parts| == k && PushesAdd(k, was, now, parts, n, window)
    ensures PushesAdd(k, was, now + [Push(n, parts[n])], parts, n + 1, window)
  {
    AfterOneMore(k, now, Push(n, parts[n]), window);
    JoinedOneMore(After(k, was, window).queues, parts, n);
    JoinedOneMore(Pushed(k, was), parts, n);
  }

  lemma NoPushAdds(k: nat, evs: seq<Event>, parts: Queues, window: int)
    requires k >= 2 && |parts| == k
    ensures PushesAdd(k, evs, evs, parts, 0, window)
  {
    assert forall qs: Queues :: |qs| == k ==> Joined(qs, parts, 0) == qs;
  }

  lemma {:induction false} AfterPushes(k: nat, evs: seq<Event>, parts: Queues, n: nat, window: int)
    requires k >= 2 && n <= |parts| == k
    ensures PushesAdd(k, evs, evs + Pushes(parts, n), parts, n, window)
  {
    if n == 0 {
      assert evs + [] == evs;
      NoPushAdds(k, evs, parts, window);
    } else {
      AfterPushes(k, evs, parts, n - 1, window);
      var now := PushesMore(evs, parts, n);
      OnePushAdds(k, evs, now, parts, n - 1, window);
    }
  }

  lemma PushesMore(evs: seq<Event>, parts: Queues, n: nat) returns (now: seq<Event>)
    requires 0 < n <= |parts|
    ensures now == evs + Pushes(parts, n - 1)
    ensures evs + Pushes(parts, n) == now + [Push(n - 1, parts[n - 1])]
  {
    now := evs + Pushes(parts, n - 1);
  }

  lemma ModeIs(k: nat, evs: seq<Event>, window: int)
    requires k >= 2
    ensures After(k, evs, window).useMedia == PairsOnMedia(Pushed(k, evs))
  {
    SeenAlways(k, evs, window);
  }

  // --- merging past records that are too early ---

  /** A stream that starts with low records keyed 0 and goes on at high. */
  predicate LowUntil(s: seq<Frame>, useMedia: bool, low: nat, high: int) {
    && low < |s| && PairingKey(s[low], useMedia) == high
    && forall i :: 0 <= i < low ==> PairingKey(s[i], useMedia) == 0
  }

  /** Each stream but one is low until its turn, and that one starts just past the window. */
  ghost predicate StartLow(qs: Queues, useMedia: bool, one: nat, lows: seq<nat>, high: int, window: nat) {
    && |lows| == |qs| >= 2 && one < |qs| && lows[one] == 0
    && |qs[one]| > 0 && PairingKey(qs[one][0], useMedia) == window + 1
    && (forall j :: 0 <= j < |qs| && j != one ==> LowUntil(qs[j], useMedia, lows[j], high))
  }

  function Skip(qs: Queues, lows: seq<nat>): (r: Queues)
    requires |lows| == |qs| && forall j :: 0 <= j < |qs| ==> lows[j] <= |qs[j]|
    ensures |r| == |qs|
  {
    seq(|qs|, j requires 0 <= j < |qs| => qs[j][lows[j]..])
  }

  lemma LowLess(s: seq<Frame>, useMedia: bool, low: nat, high: int)
    requires low > 0 && LowUntil(s, useMedia, low, high)
    ensures PairingKey(s[0], useMedia) == 0 && LowUntil(s[1..], useMedia, low - 1, high) &&
            s[1..][low - 1..] == s[low..]
  {
  }

  /** The next record to go is a low one. */
  lemma LowIsEarliest(qs: Queues, useMedia: bool, one: nat, lows: seq<nat>, high: int, j: nat, window: nat)
    requires StartLow(qs, useMedia, one, lows, high, window) && high >= window + 1 && j < |qs| && lows[j] > 0
    ensures AllNonEmpty(qs) && Spread(qs, useMedia) > window
    ensures var e := Earliest(qs, useMedia, |qs|); e != one && lows[e] > 0
  {
    assert AllNonEmpty(qs);
    LowLess(qs[j], useMedia, lows[j], high);
    assert FrontKey(qs, useMedia, j) == 0 && FrontKey(qs, useMedia, one) == window + 1;
  }

  lemma LowRetires(qs: Queues, useMedia: bool, one: nat, lows: seq<nat>, high: int, e: nat, window: nat)
    requires StartLow(qs, useMedia, one, lows, high, window) && e < |qs| && e != one && lows[e] > 0
    ensures var less := lows[e := lows[e] - 1];
            |qs[e]| > 0 && StartLow(PopOne(qs, e), useMedia, one, less, high, window) &&
            Skip(PopOne(qs, e), less) == Skip(qs, lows)
  {
    LowLess(qs[e], useMedia, lows[e], high);
  }

  lemma {:induction false} LowsRetire(qs: Queues, useMedia: bool, one: nat, lows: seq<nat>, high: int, window: nat)
    requires StartLow(qs, useMedia, one, lows, high, window) && high >= window + 1
    ensures var a, b := Merge(qs, useMedia, window), Merge(Skip(qs, lows), useMedia, window);
            a.groups == b.groups && a.rest == b.rest
    decreases Total(qs)
  {
    if j :| 0 <= j < |qs| && lows[j] > 0 {
      var e := Earliest(qs, useMedia, |qs|);
      LowIsEarliest(qs, useMedia, one, lows, high, j, window);
      LowRetires(qs, useMedia, one, lows, high, e, window);
      TotalPopOne(qs, e);
      LowsRetire(PopOne(qs, e), useMedia, one, lows[e := lows[e] - 1], high, window);
    } else {
      assert Skip(qs, lows) == qs;
    }
  }

  /** With the other streams far ahead, the one record of a stream is retired and nothing is grouped. */
  lemma OneIsRetired(qs: Queues, useMedia: bool, one: nat, window: nat)
    requires |qs| >= 2 && one < |qs| && AllNonEmpty(qs) && |qs[one]| == 1
    requires FrontKey(qs, useMedia, one) == window + 1
    requires forall j :: 0 <= j < |qs| && j != one ==> FrontKey(qs, useMedia, j) == 2 * window + 2
    ensures var o := Merge(qs, useMedia, window); o.groups == [] && o.rest == PopOne(qs, one)
  {
    var other := if one == 0 then 1 else 0;
    var e, l := Earliest(qs, useMedia, |qs|), Latest(qs, useMedia, |qs|);
    assert FrontKey(qs, useMedia, e) <= FrontKey(qs, useMedia, one);
    assert FrontKey(qs, useMedia, other) <= FrontKey(qs, useMedia, l);
    assert |PopOne(qs, one)[one]| == 0;
    ModeIrrelevant(PopOne(qs, one), useMedia, window);
  }

  /** With all fronts at the same key they are grouped. */
  lemma FrontsAreGrouped(qs: Queues, useMedia: bool, window: nat)
    requires |qs| >= 2 && AllNonEmpty(qs)
    requires forall j :: 0 <= j < |qs| ==> FrontKey(qs, useMedia, j) == window + 1
    ensures var o := Merge(qs, useMedia, window); |o.groups| > 0 && o.groups[0] == Fronts(qs)
  {
  }

  /** Groups are made of queued records. */
  lemma GroupMembers(qs: Queues, useMedia: bool, window: int, g: nat, j: nat)
    requires j < |qs| && g < |Merge(qs, useMedia, window).groups|
    ensures var gs := Merge(qs, useMedia, window).groups; |gs[g]| == |qs| && gs[g][j] in qs[j]
  {
    M.MergeIsMatching(qs, useMedia, window);
    var gs, m := Merge(qs, useMedia, window).groups, M.Picks(qs, useMedia, window);
    assert M.IsMadeOf(gs[g], m[g], qs);
  }

  // --- two schedules that differ ---

  /** The head of stream one has no position and arrives at window + 1. Records with one arrive at 2 window + 2, at
      position window + 1. Others without one arrive at 0 before the first position of their stream and late after. */
  function HeadFrame(window: nat): Frame {
    Frame(StampFor(window + 1), 0, 0)
  }

  function PlacedFrame(window: nat): Frame {
    Frame(StampFor(2 * window + 2), window + 1, 0)
  }

  function LateFrame(window: nat): Frame {
    Frame(StampFor(2 * window + 2), 0, 0)
  }

  const BARE: Frame := Frame(0, 0, 0)

  predicate NoneUpTo(present: seq<bool>, i: nat)
    requires i < |present|
  {
    forall l :: 0 <= l <= i ==> !present[l]
  }

  function FrameFor(shape: Shape, one: nat, j: nat, i: nat, window: nat): Frame
    requires j < |shape| && i < |shape[j]|
  {
    if j == one && i == 0 then HeadFrame(window)
    else if shape[j][i] then PlacedFrame(window)
    else if j != one && NoneUpTo(shape[j], i) then BARE
    else LateFrame(window)
  }

  function Frames(shape: Shape, one: nat, window: nat): (all: Queues)
    ensures |all| == |shape| && forall j :: 0 <= j < |shape| ==> |all[j]| == |shape[j]|
    ensures forall j, i :: 0 <= j < |shape| && 0 <= i < |shape[j]| ==> all[j][i] == FrameFor(shape, one, j, i, window)
  {
    seq(|shape|, j requires 0 <= j < |shape| =>
      seq(|shape[j]|, i requires 0 <= i < |shape[j]| => FrameFor(shape, one, j, i, window)))
  }

  /** Every stream has a position, but stream one not on its first record. */
  predicate Unsettled(shape: Shape, one: nat) {
    && |shape| >= 2 && one < |shape|
    && (forall j :: 0 <= j < |shape| ==> AnyPosition(shape[j]))
    && |shape[one]| > 0 && !shape[one][0]
  }

  function FirstPosition(present: seq<bool>): (i: nat)
    requires AnyPosition(present)
    ensures i < |present| && present[i] && forall l :: 0 <= l < i ==> !present[l]
  {
    if present[0] then 0
    else
      assert AnyPosition(present[1..]) by {
        var i :| 0 <= i < |present| && present[i];
        assert present[1..][i - 1];
      }
      var i := 1 + FirstPosition(present[1..]);
      assert present[..i] == [present[0]] + present[1..][..i - 1];
      assert forall l :: 0 <= l < i ==> !present[..i][l];
      i
  }

  function Lows(shape: Shape, one: nat): (lows: seq<nat>)
    requires Unsettled(shape, one)
    ensures |lows| == |shape|
    ensures forall j :: 0 <= j < |shape| ==>
              lows[j] == (if j == one then 0 else FirstPosition(shape[j])) && lows[j] < |shape[j]|
  {
    seq(|shape|, j requires 0 <= j < |shape| => if j == one then 0 else FirstPosition(shape[j]))
  }

  /** What is pushed before and after the call of Process. */
  function Early(shape: Shape, one: nat, window: nat): (parts: Queues)
    requires Unsettled(shape, one)
    ensures |parts| == |shape|
    ensures forall j :: 0 <= j < |shape| ==> parts[j] == Frames(shape, one, window)[j][..Lows(shape, one)[j] + 1]
  {
    seq(|shape|, j requires 0 <= j < |shape| => Frames(shape, one, window)[j][..Lows(shape, one)[j] + 1])
  }

  function Later(shape: Shape, one: nat, window: nat): (parts: Queues)
    requires Unsettled(shape, one)
    ensures |parts| == |shape|
    ensures forall j :: 0 <= j < |shape| ==> parts[j] == Frames(shape, one, window)[j][Lows(shape, one)[j] + 1..]
  {
    seq(|shape|, j requires 0 <= j < |shape| => Frames(shape, one, window)[j][Lows(shape, one)[j] + 1..])
  }

  function ProcessedEarly(shape: Shape, one: nat, window: nat): seq<Event>
    requires Unsettled(shape, one)
  {
    UpToProcess(shape, one, window) + Pushes(Later(shape, one, window), |shape|)
  }

  function ProcessedLate(shape: Shape, one: nat, window: nat): seq<Event> {
    [] + Pushes(Frames(shape, one, window), |shape|)
  }

  lemma FramesHaveShape(shape: Shape, one: nat, window: nat)
    requires Unsettled(shape, one)
    ensures HasShape(Frames(shape, one, window), shape) && PairsOnMedia(Frames(shape, one, window))
  {
    var all := Frames(shape, one, window);
    assert HasShape(all, shape);
    forall j | 0 <= j < |shape|
      ensures HasMedia(all[j])
    {
      PositionsAreMedia(all, shape, j);
    }
  }

  lemma NothingJoined(k: nat, parts: Queues)
    requires |parts| == k
    ensures Joined(seq(k, j => []), parts, k) == parts
  {
    assert forall j :: 0 <= j < k ==> [] + parts[j] == parts[j];
  }

  lemma StartsEmpty(k: nat, window: int)
    requires k >= 2
    ensures After(k, [], window).queues == seq(k, j => []) && Pushed(k, []) == seq(k, j => []) &&
            NeverCapped(k, [], window)
    ensures After(k, [], window).groups == []
  {
  }

  lemma FramesStartLow(shape: Shape, one: nat, window: nat)
    requires Unsettled(shape, one)
    ensures StartLow(Frames(shape, one, window), true, one, Lows(shape, one), window + 1, window)
    ensures StartLow(Early(shape, one, window), false, one, Lows(shape, one), 2 * window + 2, window)
    ensures Early(shape, one, window)[one] == [HeadFrame(window)]
  {
    var all, lows := Frames(shape, one, window), Lows(shape, one);
    forall j | 0 <= j < |shape| && j != one
      ensures LowUntil(all[j], true, lows[j], window + 1) &&
              LowUntil(Early(shape, one, window)[j], false, lows[j], 2 * window + 2)
    {
      assert forall i :: 0 <= i < lows[j] ==> NoneUpTo(shape[j], i) && all[j][i] == BARE;
      assert all[j][lows[j]] == PlacedFrame(window);
    }
    assert all[one][0] == HeadFrame(window);
  }

  /** Once the low records are gone the fronts are where the streams go on. */
  lemma SkipFronts(qs: Queues, useMedia: bool, one: nat, lows: seq<nat>, high: int, window: nat)
    requires StartLow(qs, useMedia, one, lows, high, window)
    ensures var s := Skip(qs, lows);
            AllNonEmpty(s) && FrontKey(s, useMedia, one) == window + 1 && Fronts(s)[one] == qs[one][0] &&
            |s[one]| == |qs[one]| &&
            forall j :: 0 <= j < |s| && j != one ==> FrontKey(s, useMedia, j) == high && |s[j]| == |qs[j]| - lows[j]
  {
    assert forall j :: 0 <= j < |qs| && j != one ==> LowUntil(qs[j], useMedia, lows[j], high);
  }

  lemma LateMerge(shape: Shape, one: nat, window: nat)
    requires Unsettled(shape, one)
    ensures var gs := Merge(Frames(shape, one, window), true, window).groups;
            |gs| > 0 && |gs[0]| == |shape| && gs[0][one] == HeadFrame(window)
  {
    var all, lows := Frames(shape, one, window), Lows(shape, one);
    FramesStartLow(shape, one, window);
    LowsRetire(all, true, one, lows, window + 1, window);
    SkipFronts(all, true, one, lows, window + 1, window);
    FrontsAreGrouped(Skip(all, lows), true, window);
  }

  lemma EarlyMerge(shape: Shape, one: nat, window: nat)
    requires Unsettled(shape, one)
    ensures var o := Merge(Early(shape, one, window), false, window);
            o.groups == [] && o.rest[one] == [] && forall j :: 0 <= j < |shape| ==> |o.rest[j]| <= 1
  {
    var parts, lows := Early(shape, one, window), Lows(shape, one);
    FramesStartLow(shape, one, window);
    LowsRetire(parts, false, one, lows, 2 * window + 2, window);
    SkipFronts(parts, false, one, lows, 2 * window + 2, window);
    OneIsRetired(Skip(parts, lows), false, one, window);
  }

  /** Processed once at the end, the first record of stream one is grouped. */
  lemma LateGroupsHead(shape: Shape, one: nat, window: nat)
    requires Unsettled(shape, one)
    ensures var k, evs := |shape|, ProcessedLate(shape, one, window);
            Pushed(k, evs) == Frames(shape, one, window) && NeverCapped(k, evs, window) &&
            var gs := Finish(k, evs, window).groups; |gs| > 0 && |gs[0]| == k && gs[0][one] == HeadFrame(window)
  {
    var k, all := |shape|, Frames(shape, one, window);
    AllPushed(all, window);
    ModeIs(k, ProcessedLate(shape, one, window), window);
    FramesHaveShape(shape, one, window);
    LateMerge(shape, one, window);
  }

  /** Up to the call of Process. */
  function UpToProcess(shape: Shape, one: nat, window: nat): seq<Event>
    requires Unsettled(shape, one)
  {
    ([] + Pushes(Early(shape, one, window), |shape|)) + [Process]
  }

  lemma BeforeProcess(shape: Shape, one: nat, window: nat)
    requires Unsettled(shape, one)
    ensures var k, evs := |shape|, [] + Pushes(Early(shape, one, window), |shape|);
            var st := After(k, evs, window);
            Pushed(k, evs) == Early(shape, one, window) && NeverCapped(k, evs, window) &&
            st.groups == [] && st.queues == Early(shape, one, window) && !st.useMedia
  {
    FramesStartLow(shape, one, window);
    assert !HasMedia([HeadFrame(window)]);
    AllPushed(Early(shape, one, window), window);
    ModeIs(|shape|, [] + Pushes(Early(shape, one, window), |shape|), window);
  }

  /** After one push to each stream. */
  lemma AllPushed(parts: Queues, window: int)
    requires |parts| >= 2
    ensures var k, evs := |parts|, [] + Pushes(parts, |parts|);
            Pushed(k, evs) == parts && NeverCapped(k, evs, window) &&
            After(k, evs, window).groups == [] && After(k, evs, window).queues == parts
  {
    StartsEmpty(|parts|, window);
    AfterPushes(|parts|, [], parts, |parts|, window);
    NothingJoined(|parts|, parts);
  }

  lemma NothingGrouped(st: State, one: nat, window: nat)
    requires one < |st.queues| == |st.unmatched| && st.groups == []
    requires var o := Merge(st.queues, st.useMedia, window); o.groups == [] && o.rest[one] == []
    ensures var r := ProcessOnce(st, window, false); r.groups == [] && r.queues[one] == []
  {
    assert st.groups + [] == [];
  }

  /** Processed before stream one shows a position, its first record is retired. */
  lemma EarlyRetiresHead(shape: Shape, one: nat, window: nat)
    requires Unsettled(shape, one)
    ensures var k, evs := |shape|, UpToProcess(shape, one, window);
            var st := After(k, evs, window);
            Pushed(k, evs) == Early(shape, one, window) && NeverCapped(k, evs, window) && st.groups == [] &&
            st.queues[one] == []
  {
    var k, evs := |shape|, [] + Pushes(Early(shape, one, window), |shape|);
    BeforeProcess(shape, one, window);
    EarlyMerge(shape, one, window);
    NothingGrouped(After(k, evs, window), one, window);
    AfterOneMore(k, evs, Process, window);
    assert (evs + [Process])[..|evs|] == evs;
  }

  /** No frame but the first of stream one is its head. */
  lemma HeadIsGone(shape: Shape, one: nat, window: nat)
    requires Unsettled(shape, one)
    ensures HeadFrame(window) !in Later(shape, one, window)[one]
  {
    var rest := Later(shape, one, window)[one];
    assert forall i :: 0 <= i < |rest| ==> rest[i] == Frames(shape, one, window)[one][i + 1];
  }

  lemma PartsJoin(shape: Shape, one: nat, window: nat)
    requires Unsettled(shape, one)
    ensures Joined(Early(shape, one, window), Later(shape, one, window), |shape|) == Frames(shape, one, window)
  {
    assert forall s: seq<Frame>, i: nat :: i <= |s| ==> s[..i] + s[i..] == s;
  }

  lemma EarlyNeverGroupsHead(shape: Shape, one: nat, window: nat)
    requires Unsettled(shape, one)
    ensures var k, evs := |shape|, ProcessedEarly(shape, one, window);
            Pushed(k, evs) == Frames(shape, one, window) && NeverCapped(k, evs, window) &&
            var gs := Finish(k, evs, window).groups; |gs| > 0 ==> |gs[0]| == k && gs[0][one] != HeadFrame(window)
  {
    var k, rest := |shape|, Later(shape, one, window);
    var evs := UpToProcess(shape, one, window);
    EarlyRetiresHead(shape, one, window);
    AfterPushes(k, evs, rest, k, window);
    PartsJoin(shape, one, window);
    HeadIsGone(shape, one, window);
    var st := After(k, evs + Pushes(rest, k), window);
    assert st.queues[one] == [] + rest[one] == rest[one];
    assert [] + Merge(st.queues, st.useMedia, window).groups == Merge(st.queues, st.useMedia, window).groups;
    if |Merge(st.queues, st.useMedia, window).groups| > 0 {
      GroupMembers(st.queues, st.useMedia, window, 0, one);
    }
  }

  lemma FramesAreStamped(shape: Shape, one: nat, window: nat, limit: nat)
    requires StampFor(2 * window + 2) < limit
    ensures Stamped(Frames(shape, one, window), limit)
  {
    var all: Queues := Frames(shape, one, window);
    forall j, i, l | 0 <= j < |all| && 0 <= i <= l < |all[j]|
      ensures all[j][i].arrival <= all[j][l].arrival < limit
    {
      assert all[j][i] == FrameFor(shape, one, j, i, window) && all[j][l] == FrameFor(shape, one, j, l, window);
      assert j != one && NoneUpTo(shape[j], l) ==> NoneUpTo(shape[j], i);
    }
  }

  // --- a tolerance below zero ---

  lemma {:induction false} NothingFits(qs: Queues, useMedia: bool, window: int)
    requires |qs| >= 1 && window < 0
    ensures Merge(qs, useMedia, window).groups == []
    decreases Total(qs)
  {
    if AllNonEmpty(qs) {
      var e := Earliest(qs, useMedia, |qs|);
      assert FrontKey(qs, useMedia, e) <= FrontKey(qs, useMedia, Latest(qs, useMedia, |qs|));
      TotalPopOne(qs, e);
      NothingFits(PopOne(qs, e), useMedia, window);
    }
  }

  lemma {:induction false} NeverGroups(k: nat, evs: seq<Event>, window: int)
    requires k >= 2 && window < 0
    ensures After(k, evs, window).groups == []
  {
    if |evs| > 0 {
      var before := After(k, evs[..|evs| - 1], window);
      NeverGroups(k, evs[..|evs| - 1], window);
      NothingFits(before.queues, before.useMedia, window);
    }
  }

  lemma LastCallUnmatches(st: State, pushed: seq<nat>, window: int)
    requires |st.queues| == |st.unmatched| == |pushed| >= 1 && window < 0 && st.groups == []
    requires forall j :: 0 <= j < |pushed| ==> pushed[j] == st.unmatched[j] + |st.queues[j]|
    ensures ProcessOnce(st, window, true).groups == [] && ProcessOnce(st, window, true).unmatched == pushed
  {
    NothingFits(st.queues, st.useMedia, window);
    Conserves(st.queues, st.useMedia, window);
  }

  /** Every record ends up unmatched. */
  lemma AllUnmatched(k: nat, evs: seq<Event>, window: int)
    requires k >= 2 && window < 0
    ensures Finish(k, evs, window).groups == [] && Finish(k, evs, window).unmatched == Lengths(Pushed(k, evs))
  {
    NeverGroups(k, evs, window);
    Conservation(k, evs, window);
    LastCallUnmatches(After(k, evs, window), Lengths(Pushed(k, evs)), window);
  }

  // --- the condition ---

  /** Two schedules that push the same records, of this shape and with the stamps of clocks, and never trip the queue
      cap. */
  ghost predicate SamePushes(shape: Shape, a: seq<Event>, b: seq<Event>, window: int, limit: nat)
    requires |shape| >= 2
  {
    var k := |shape|;
    HasShape(Pushed(k, a), shape) && Stamped(Pushed(k, a), limit) && Pushed(k, a) == Pushed(k, b) &&
    NeverCapped(k, a, window) && NeverCapped(k, b, window)
  }

  predicate Agree(k: nat, a: seq<Event>, b: seq<Event>, window: int)
    requires k >= 2
  {
    var r, s := Finish(k, a, window), Finish(k, b, window);
    r.groups == s.groups && r.unmatched == s.unmatched
  }

  /** For any tolerance, and a clock with room for twice that much, the schedule cannot matter exactly when some
      stream has no position at all or every stream's first record has one; below zero it never matters. */
  lemma SettledIff(shape: Shape, window: int, limit: nat)
    requires |shape| >= 2 && (window >= 0 ==> StampFor(2 * window + 2) < limit)
    ensures SettledShape(shape) || window < 0 <==>
            forall a, b :: SamePushes(shape, a, b, window, limit) ==> Agree(|shape|, a, b, window)
  {
    var k := |shape|;
    if SettledShape(shape) {
      forall a, b | SamePushes(shape, a, b, window, limit)
        ensures Agree(k, a, b, window)
      {
        ShapeSettles(Pushed(k, a), shape);
        ScheduleIndependence(k, a, b, window);
      }
    } else if window < 0 {
      forall a, b | SamePushes(shape, a, b, window, limit)
        ensures Agree(k, a, b, window)
      {
        AllUnmatched(k, a, window);
        AllUnmatched(k, b, window);
      }
    } else {
      UnsettledDiffers(shape, window, limit);
    }
  }

  lemma SchedulesDiffer(shape: Shape, one: nat, window: nat, limit: nat)
    requires Unsettled(shape, one) && StampFor(2 * window + 2) < limit
    ensures var a, b := ProcessedEarly(shape, one, window), ProcessedLate(shape, one, window);
            SamePushes(shape, a, b, window, limit) && !Agree(|shape|, a, b, window)
  {
    EarlyNeverGroupsHead(shape, one, window);
    LateGroupsHead(shape, one, window);
    FramesHaveShape(shape, one, window);
    FramesAreStamped(shape, one, window, limit);
  }

  lemma UnsettledDiffers(shape: Shape, window: nat, limit: nat)
    requires |shape| >= 2 && !SettledShape(shape) && StampFor(2 * window + 2) < limit
    ensures exists a, b :: SamePushes(shape, a, b, window, limit) && !Agree(|shape|, a, b, window)
  {
    var one :| 0 <= one < |shape| && !(|shape[one]| > 0 && shape[one][0]);
    assert AnyPosition(shape[one]);
    SchedulesDiffer(shape, one, window, limit);
  }
}
