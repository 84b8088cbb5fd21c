/** What the producer's counters count, and which key each record carries, over whole runs. */
module ProducerCounts {
  import opened Producer

  /** The turns of a run of which something holds. */
  function Turns(evs: seq<Event>, holds: Event -> bool): set<int> {
    set i | 0 <= i < |evs| && holds(evs[i])
  }

  lemma OneMoreTurn(evs: seq<Event>, ev: Event, holds: Event -> bool)
    ensures |Turns(evs + [ev], holds)| == |Turns(evs, holds)| + if holds(ev) then 1 else 0
  {
    assert Turns(evs + [ev], holds) == Turns(evs, holds) + if holds(ev) then {|evs|} else {};
  }

  /** A reply to a poll, or to a size query whose id has come into their range. */
  predicate IsPollReply(ev: Event, outcome: Outcome) {
    ev.Reply? && ev.outcome == outcome && IdOf(ev.to) >= 1000
  }

  predicate IsTick(ev: Event) {
    ev.Tick?
  }

  predicate IsGarbled(ev: Event) {
    ev.Garbled?
  }

  predicate IsQuery(ev: Event) {
    ev.Query?
  }

  predicate IsFailure(ev: Event) {
    IsPollReply(ev, Failed)
  }

  predicate IsFrame(ev: Event) {
    IsPollReply(ev, Passes)
  }

  ghost predicate Counted(evs: seq<Event>) {
    var l := After(evs).loop;
    && l.ticks == |Turns(evs, IsTick)| && l.parseErrors == |Turns(evs, IsGarbled)|
    && l.pollErrors == |Turns(evs, IsFailure)| && |l.records| == |Turns(evs, IsFrame)|
    && l.nextSize == |Turns(evs, IsQuery)|
  }

  lemma StepCounts(l: Loop, ev: Event)
    ensures var n := LoopStep(l, ev);
            && n.ticks == l.ticks + (if IsTick(ev) then 1 else 0)
            && n.parseErrors == l.parseErrors + (if IsGarbled(ev) then 1 else 0)
            && n.pollErrors == l.pollErrors + (if IsFailure(ev) then 1 else 0)
            && |n.records| == |l.records| + (if IsFrame(ev) then 1 else 0)
            && n.nextSize == l.nextSize + (if IsQuery(ev) then 1 else 0)
  {
  }

  /** Every counter is the number of turns that it is named for, and every reply with passes makes one record. */
  lemma {:induction false} CountersCount(evs: seq<Event>)
    ensures Counted(evs)
  {
    if evs != [] {
      var before, ev := evs[..|evs| - 1], evs[|evs| - 1];
      CountersCount(before);
      StepCounts(After(before).loop, ev);
      assert evs == before + [ev];
      OneMoreTurn(before, ev, IsTick);
      OneMoreTurn(before, ev, IsGarbled);
      OneMoreTurn(before, ev, IsFailure);
      OneMoreTurn(before, ev, IsFrame);
      OneMoreTurn(before, ev, IsQuery);
    }
  }

  // --- the media key ---

  /** A position in whole nanoseconds. */
  predicate IsNanos(ns: int, position: real) {
    ns as real <= position * 1_000_000_000.0 < ns as real + 1.0
  }

  /** While a video plays on, the key moves as far as the position. When the position falls back by more than a second,
      the key goes on from where it was. */
  lemma KeyFollowsPosition(l: Loop, position: real, sent: bool)
    requires Consistent(l) && position >= 0.0
    ensures var n := LoopStep(l, Tick(position, sent));
            IsNanos(n.lastPosition, position) &&
            if n.lastPosition + 1_000_000_000 < l.lastPosition
            then n.mediaTime == l.mediaTime + n.lastPosition && n.loops == l.loops + 1
            else n.mediaTime - l.mediaTime == n.lastPosition - l.lastPosition && n.loops == l.loops
  {
  }

  /** Nothing but a position moves the key. */
  lemma OnlyPositionsMoveKey(l: Loop, ev: Event)
    requires !(ev.Tick? && ev.position >= 0.0)
    ensures var n := LoopStep(l, ev);
            n.mediaTime == l.mediaTime && n.lastPosition == l.lastPosition && n.epoch == l.epoch && n.loops == l.loops
  {
  }

  /** These turns made the records: replies with passes, in order, each record with the key as it stood then. */
  ghost predicate Made(evs: seq<Event>, keys: seq<int>, records: seq<int>, places: seq<nat>) {
    && |places| == |records| && |keys| == |evs| + 1
    && (forall k :: 0 <= k < |places| ==> places[k] < |evs|)
    && (forall k :: 0 <= k < |places| ==> IsFrame(evs[places[k]]) && records[k] == keys[places[k]])
    && (forall j, k :: 0 <= j < k < |places| ==> places[j] < places[k])
  }

  /** Every record carries the key of its turn. */
  lemma {:induction false} RecordsTakeKeys(evs: seq<Event>) returns (places: seq<nat>)
    ensures Made(evs, Keys(evs), After(evs).loop.records, places)
  {
    if evs == [] {
      places := [];
    } else {
      var before, ev := evs[..|evs| - 1], evs[|evs| - 1];
      var l := After(before).loop;
      places := RecordsTakeKeys(before);
      assert evs == before + [ev];
      KeysSnoc(before, ev);
      RecordsStay(l, ev);
      if IsFrame(ev) {
        MadeGrows(before, ev, Keys(before), LoopStep(l, ev).mediaTime, l.records, places);
        places := places + [|before|];
      } else {
        MadeStays(before, ev, Keys(before), LoopStep(l, ev).mediaTime, l.records, places);
      }
    }
  }

  lemma KeyStays(evs: seq<Event>, ev: Event, i: nat)
    requires i <= |evs|
    ensures Keys(evs + [ev])[i] == Keys(evs)[i]
  {
    assert (evs + [ev])[..i] == evs[..i];
  }

  lemma NewestKey(evs: seq<Event>)
    ensures Keys(evs)[|evs|] == After(evs).loop.mediaTime
  {
    assert evs[..|evs|] == evs;
  }

  lemma AfterSnoc(evs: seq<Event>, ev: Event)
    ensures After(evs + [ev]) == Step(After(evs), ev)
  {
    assert (evs + [ev])[..|evs|] == evs;
  }

  lemma Extends(longer: seq<int>, keys: seq<int>, key: int)
    requires |longer| == |keys| + 1 && longer[|keys|] == key && forall i :: 0 <= i < |keys| ==> longer[i] == keys[i]
    ensures longer == keys + [key]
  {
  }

  lemma KeysSnoc(evs: seq<Event>, ev: Event)
    ensures Keys(evs + [ev]) == Keys(evs) + [LoopStep(After(evs).loop, ev).mediaTime]
    ensures Keys(evs)[|evs|] == After(evs).loop.mediaTime
  {
    NewestKey(evs);
    NewestKey(evs + [ev]);
    AfterSnoc(evs, ev);
    forall i | 0 <= i < |Keys(evs)|
      ensures Keys(evs + [ev])[i] == Keys(evs)[i]
    {
      KeyStays(evs, ev, i);
    }
    Extends(Keys(evs + [ev]), Keys(evs), LoopStep(After(evs).loop, ev).mediaTime);
  }

  lemma RecordsStay(l: Loop, ev: Event)
    ensures LoopStep(l, ev).records == l.records + if IsFrame(ev) then [l.mediaTime] else []
  {
  }

  lemma MadeGrows(evs: seq<Event>, ev: Event, keys: seq<int>, key: int, records: seq<int>, places: seq<nat>)
    requires Made(evs, keys, records, places) && IsFrame(ev)
    ensures Made(evs + [ev], keys + [key], records + [keys[|evs|]], places + [|evs|])
  {
  }

  lemma MadeStays(evs: seq<Event>, ev: Event, keys: seq<int>, key: int, records: seq<int>, places: seq<nat>)
    requires Made(evs, keys, records, places)
    ensures Made(evs + [ev], keys + [key], records + [], places)
  {
  }

  // --- the size of the window ---

  /** A width once known stays known, and each later answer that can be rendered to replaces it. */
  lemma KnownSizeStays(l: Loop, ev: Event)
    requires l.nextSize > 0 && l.renderWidth > 0
    ensures LoopStep(l, ev).renderWidth > 0 && LoopStep(l, ev).nextSize > 0
    ensures ev.Query? && ev.answer.Dimensions? && ev.answer.width > 0 && ev.answer.height > 0 ==>
              LoopStep(l, ev).renderWidth == ev.answer.width
    ensures !(ev.Query? && ev.answer.Dimensions? && ev.answer.width > 0 && ev.answer.height > 0) ==>
              LoopStep(l, ev).renderWidth == l.renderWidth
  {
  }

  /** Polls in flight are never counted below none or above four, whatever is received. */
  lemma {:induction false} OutstandingInRange(evs: seq<Event>)
    ensures 0 <= After(evs).loop.outstanding <= 4
  {
    if evs != [] {
      OutstandingInRange(evs[..|evs| - 1]);
    }
  }
}
