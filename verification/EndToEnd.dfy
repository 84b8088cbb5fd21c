/** From the producers' event loops to the correlator's groups. */
module EndToEnd {
  import opened Bits
  import opened Correlation
  import opened Matching
  import S = Schedule
  import T = Settling
  import P = Producer

  // --- matching by position in the video ---

  /** The media position of each record of each stream. */
  type Positions = seq<seq<int>>

  predicate AtPositions(all: Queues, positions: Positions) {
    && |all| == |positions|
    && forall j :: 0 <= j < |positions| ==> StreamAt(all[j], positions[j])
  }

  predicate StreamAt(frames: seq<Frame>, positions: seq<int>) {
    |frames| == |positions| && forall i :: 0 <= i < |frames| ==> frames[i].media == positions[i]
  }

  /** One record of every stream, no two of them further apart in the video than the window. */
  ghost predicate CloseByPosition(g: Group, all: Queues, window: int) {
    && |g| == |all|
    && (forall j :: 0 <= j < |all| ==> g[j] < |all[j]|)
    && (forall j, l :: 0 <= j < |all| && 0 <= l < |all| ==> all[j][g[j]].media - all[l][g[l]].media <= window)
  }

  ghost predicate IsMatchingByPosition(m: seq<Group>, all: Queues, window: int) {
    Disjoint(m, |all|) && forall a :: 0 <= a < |m| ==> CloseByPosition(m[a], all, window)
  }

  ghost predicate NoMoreThan(n: nat, all: Queues, window: int) {
    forall m :: IsMatchingByPosition(m, all, window) ==> |m| <= n
  }

  /** No way of matching the pushed records by position makes more groups than the correlator. */
  ghost predicate BestByPosition(k: nat, evs: seq<S.Event>, window: int)
    requires k >= 2
  {
    NoMoreThan(|S.Finish(k, evs, window).groups|, S.Pushed(k, evs), window)
  }

  /** A stream without records, or no record at position 0, where the key falls back to the arrival stamp. */
  predicate Placed(positions: Positions) {
    || (exists j :: 0 <= j < |positions| && positions[j] == [])
    || (forall j, i :: 0 <= j < |positions| && 0 <= i < |positions[j]| ==> positions[j][i] > 0)
  }

  predicate Orderly(positions: Positions) {
    forall j :: 0 <= j < |positions| ==> P.Sorted(positions[j])
  }

  // --- placed streams are paired best ---

  lemma PlacedKeysAreMedia(all: Queues, positions: Positions, j: nat, i: nat)
    requires AtPositions(all, positions) && j < |all| && i < |all[j]|
    requires forall j, i :: 0 <= j < |positions| && 0 <= i < |positions[j]| ==> positions[j][i] > 0
    ensures all[j][i].media == positions[j][i] > 0 && Key(all, true, j, i) == all[j][i].media
  {
    assert StreamAt(all[j], positions[j]);
  }

  lemma PlacedIsBest(k: nat, evs: seq<S.Event>, window: int, positions: Positions, m: seq<Group>)
    requires k >= 2 && |positions| == k && Placed(positions) && Orderly(positions)
    requires AtPositions(S.Pushed(k, evs), positions) && S.NeverCapped(k, evs, window)
    requires IsMatchingByPosition(m, S.Pushed(k, evs), window)
    ensures |m| <= |S.Finish(k, evs, window).groups|
  {
    var all := S.Pushed(k, evs);
    if m != [] {
      assert CloseByPosition(m[0], all, window);
      assert forall j :: 0 <= j < k ==> StreamAt(all[j], positions[j]) && |positions[j]| > 0;
      forall j, i | 0 <= j < k && 0 <= i < |all[j]|
        ensures all[j][i].media == positions[j][i] > 0 && Key(all, true, j, i) == all[j][i].media
      {
        PlacedKeysAreMedia(all, positions, j, i);
      }
      assert S.PairsOnMedia(all) by {
        forall j | 0 <= j < k ensures S.HasMedia(all[j]) { assert all[j][0].media > 0; }
      }
      assert Ordered(all, true) by {
        forall j, i, l | 0 <= j < k && 0 <= i <= l < |all[j]| ensures Key(all, true, j, i) <= Key(all, true, j, l) {
          assert P.Sorted(positions[j]);
        }
      }
      forall a | 0 <= a < |m| ensures Close(m[a], all, true, window) {
        assert CloseByPosition(m[a], all, window);
      }
      S.ScheduleIsOptimal(k, evs, window, m);
    }
  }

  // --- a record at position 0 can cost every group ---

  /** At least the size of every position. */
  function Reach(ps: seq<int>): (r: nat)
    ensures forall i :: 0 <= i < |ps| ==> 0 - r <= ps[i] <= r
  {
    if ps == [] then 0
    else
      var n := |ps| - 1;
      var r, p := Reach(ps[..n]), if ps[n] < 0 then -ps[n] else ps[n];
      if p > r then p else r
  }

  function ReachAll(positions: Positions): (r: nat)
    ensures forall j, i :: 0 <= j < |positions| && 0 <= i < |positions[j]| ==> 0 - r <= positions[j][i] <= r
  {
    if positions == [] then 0
    else
      var n := |positions| - 1;
      var r, p := ReachAll(positions[..n]), Reach(positions[n]);
      if p > r then p else r
  }

  /** A stamp that no position reaches within the tolerance: its distance to the furthest one is window + 1. */
  function LateStamp(positions: Positions, window: int): (stamp: nat)
    ensures ToInt64(stamp) == ReachAll(positions) + (if window < 0 then 0 else window) + 1
  {
    StampFor(ReachAll(positions) + (if window < 0 then 0 else window) + 1)
  }

  /** Frames at these positions. Those of stream one arrive late, the others at 0. */
  function FramesAt(positions: Positions, one: nat, window: int): (all: Queues)
    ensures |all| == |positions| && forall j :: 0 <= j < |positions| ==> |all[j]| == |positions[j]|
    ensures forall j, i :: 0 <= j < |positions| && 0 <= i < |positions[j]| ==>
              all[j][i] == Frame(if j == one then LateStamp(positions, window) else 0, positions[j][i], 0)
  {
    var late := LateStamp(positions, window);
    seq(|positions|, j requires 0 <= j < |positions| =>
      seq(|positions[j]|, i requires 0 <= i < |positions[j]| =>
        Frame(if j == one then late else 0, positions[j][i], 0)))
  }

  lemma FramesAreFollowed(positions: Positions, one: nat, window: int, limit: nat)
    requires LateStamp(positions, window) < limit
    ensures AtPositions(FramesAt(positions, one, window), positions)
    ensures Stamped(FramesAt(positions, one, window), limit)
  {
    var all: Queues := FramesAt(positions, one, window);
    assert forall j :: 0 <= j < |positions| ==> StreamAt(all[j], positions[j]);
    forall j, i, l | 0 <= j < |all| && 0 <= i <= l < |all[j]|
      ensures all[j][i].arrival <= all[j][l].arrival < limit
    {
      assert all[j][i].arrival == all[j][l].arrival;
    }
  }

  /** While the front of one stream is out of reach, the other streams are retired against it. */
  ghost predicate Blocks(qs: Queues, useMedia: bool, one: nat, top: int, window: int) {
    && |qs| >= 2 && one < |qs| && |qs[one]| > 0 && PairingKey(qs[one][0], useMedia) > top + window
    && forall j, i :: 0 <= j < |qs| && j != one && 0 <= i < |qs[j]| ==> PairingKey(qs[j][i], useMedia) <= top
  }

  lemma StillBlocks(qs: Queues, useMedia: bool, one: nat, top: int, window: int)
    requires Blocks(qs, useMedia, one, top, window) && AllNonEmpty(qs) && window >= 0
    ensures Spread(qs, useMedia) > window
    ensures Blocks(PopOne(qs, Earliest(qs, useMedia, |qs|)), useMedia, one, top, window)
  {
    var other := if one == 0 then 1 else 0;
    var e, l := Earliest(qs, useMedia, |qs|), Latest(qs, useMedia, |qs|);
    assert FrontKey(qs, useMedia, other) == PairingKey(qs[other][0], useMedia) <= top;
    assert FrontKey(qs, useMedia, e) <= FrontKey(qs, useMedia, other);
    assert FrontKey(qs, useMedia, one) <= FrontKey(qs, useMedia, l);
    assert e != one;
    assert forall i :: 0 <= i < |qs[e][1..]| ==> qs[e][1..][i] == qs[e][i + 1];
  }

  lemma {:induction false} BlockedMerge(qs: Queues, useMedia: bool, one: nat, top: int, window: int)
    requires Blocks(qs, useMedia, one, top, window) && window >= 0
    ensures Merge(qs, useMedia, window).groups == []
    decreases Total(qs)
  {
    if AllNonEmpty(qs) {
      var e := Earliest(qs, useMedia, |qs|);
      StillBlocks(qs, useMedia, one, top, window);
      TotalPopOne(qs, e);
      BlockedMerge(PopOne(qs, e), useMedia, one, top, window);
    }
  }

  lemma FramesBlock(positions: Positions, one: nat, useMedia: bool, window: nat)
    requires |positions| >= 2 && one < |positions| && |positions[one]| > 0 && positions[one][0] <= 0
    ensures Blocks(FramesAt(positions, one, window), useMedia, one, ReachAll(positions), window)
  {
    var r, all: Queues := ReachAll(positions), FramesAt(positions, one, window);
    assert all[one][0] == Frame(LateStamp(positions, window), positions[one][0], 0);
    forall j, i | 0 <= j < |all| && j != one && 0 <= i < |all[j]|
      ensures PairingKey(all[j][i], useMedia) <= r
    {
      assert all[j][i].media == positions[j][i] && all[j][i].arrival == 0;
    }
  }

  /** One stream, headed by a record at position 0, started late: for any tolerance nothing is grouped, and no stamp
      goes back. Below 2^63 the late stamp is the furthest position and the tolerance and one more. */
  lemma PositionZeroBlocks(positions: Positions, one: nat, window: nat, limit: nat) returns (evs: seq<S.Event>)
    requires |positions| >= 2 && one < |positions| && positions[one] != [] && positions[one][0] <= 0
    requires LateStamp(positions, window) < limit
    ensures var k := |positions|;
            AtPositions(S.Pushed(k, evs), positions) && Stamped(S.Pushed(k, evs), limit) &&
            S.NeverCapped(k, evs, window) && S.Finish(k, evs, window).groups == []
  {
    var k, all := |positions|, FramesAt(positions, one, window);
    evs := [] + T.Pushes(all, k);
    T.AllPushed(all, window);
    FramesAreFollowed(positions, one, window, limit);
    var st := S.After(k, evs, window);
    FramesBlock(positions, one, st.useMedia, window);
    BlockedMerge(all, st.useMedia, one, ReachAll(positions), window);
  }

  // --- the condition ---

  /** One place in each stream, no two of them further apart in the video than the window. */
  ghost predicate Match(g: Group, positions: Positions, window: int) {
    && |g| == |positions|
    && (forall j :: 0 <= j < |positions| ==> g[j] < |positions[j]|)
    && (forall j, l :: 0 <= j < |positions| && 0 <= l < |positions| ==>
          positions[j][g[j]] - positions[l][g[l]] <= window)
  }

  ghost predicate SomethingMatches(positions: Positions, window: int) {
    exists g :: Match(g, positions, window)
  }

  lemma MatchIsClose(g: Group, all: Queues, positions: Positions, window: int)
    requires AtPositions(all, positions)
    ensures CloseByPosition(g, all, window) <==> Match(g, positions, window)
  {
    if |g| == |all| && forall j :: 0 <= j < |all| ==> g[j] < |all[j]| {
      forall j | 0 <= j < |all|
        ensures all[j][g[j]].media == positions[j][g[j]]
      {
        assert StreamAt(all[j], positions[j]);
      }
    }
    assert forall j :: 0 <= j < |positions| ==> StreamAt(all[j], positions[j]);
  }

  lemma MatchNeedsRoom(g: Group, positions: Positions, window: int)
    requires |positions| >= 1 && Match(g, positions, window)
    ensures window >= 0
  {
    assert positions[0][g[0]] - positions[0][g[0]] <= window;
  }

  lemma NothingMatches(all: Queues, positions: Positions, window: int, m: seq<Group>)
    requires AtPositions(all, positions) && !SomethingMatches(positions, window) && IsMatchingByPosition(m, all, window)
    ensures m == []
  {
    if m != [] {
      MatchIsClose(m[0], all, positions, window);
    }
  }

  /** Schedules that push records at these positions, with the stamps of clocks, and never trip the queue cap. */
  ghost predicate Plays(positions: Positions, evs: seq<S.Event>, window: int, limit: nat)
    requires |positions| >= 2
  {
    var k := |positions|;
    AtPositions(S.Pushed(k, evs), positions) && Stamped(S.Pushed(k, evs), limit) && S.NeverCapped(k, evs, window)
  }

  /** For any tolerance, and a clock with room for it: whatever the stamps and the schedule, the groups are as many as
      any matching by position makes, exactly when no record lies at position 0, some stream has none, or nothing at
      all matches. */
  lemma BestIff(positions: Positions, window: int, limit: nat)
    requires |positions| >= 2 && Orderly(positions) && LateStamp(positions, window) < limit
    ensures Placed(positions) || !SomethingMatches(positions, window) <==>
            forall evs :: Plays(positions, evs, window, limit) ==> BestByPosition(|positions|, evs, window)
  {
    var k := |positions|;
    if Placed(positions) || !SomethingMatches(positions, window) {
      forall evs | Plays(positions, evs, window, limit)
        ensures BestByPosition(k, evs, window)
      {
        forall m | IsMatchingByPosition(m, S.Pushed(k, evs), window)
          ensures |m| <= |S.Finish(k, evs, window).groups|
        {
          if Placed(positions) {
            PlacedIsBest(k, evs, window, positions, m);
          } else {
            NothingMatches(S.Pushed(k, evs), positions, window, m);
          }
        }
      }
    } else {
      NotBest(positions, window, limit);
    }
  }

  lemma OneMatchBeatsNone(g: Group, all: Queues, positions: Positions, window: int)
    requires Match(g, positions, window) && AtPositions(all, positions)
    ensures !NoMoreThan(0, all, window)
  {
    MatchIsClose(g, all, positions, window);
    var m := [g];
    assert IsMatchingByPosition(m, all, window) && |m| == 1;
  }

  lemma NoGroupIsNotBest(g: Group, positions: Positions, evs: seq<S.Event>, window: int)
    requires |positions| >= 2 && Match(g, positions, window) && AtPositions(S.Pushed(|positions|, evs), positions)
    requires S.Finish(|positions|, evs, window).groups == []
    ensures !BestByPosition(|positions|, evs, window)
  {
    OneMatchBeatsNone(g, S.Pushed(|positions|, evs), positions, window);
  }

  lemma HeadAtZero(positions: Positions) returns (one: nat)
    requires Orderly(positions) && !Placed(positions)
    ensures one < |positions| && positions[one] != [] && positions[one][0] <= 0
  {
    var j, i :| 0 <= j < |positions| && 0 <= i < |positions[j]| && positions[j][i] <= 0;
    one := j;
    assert P.Sorted(positions[one]);
  }

  lemma NotBest(positions: Positions, window: int, limit: nat)
    requires |positions| >= 2 && Orderly(positions) && LateStamp(positions, window) < limit
    requires !Placed(positions) && SomethingMatches(positions, window)
    ensures exists evs :: Plays(positions, evs, window, limit) && !BestByPosition(|positions|, evs, window)
  {
    var g :| Match(g, positions, window);
    MatchNeedsRoom(g, positions, window);
    var one := HeadAtZero(positions);
    var evs := PositionZeroBlocks(positions, one, window, limit);
    NoGroupIsNotBest(g, positions, evs, window);
    assert Plays(positions, evs, window, limit);
  }

  // --- from the producers ---

  /** Which records of a run reached the correlator, by their place in the run. The rest were dropped on the way. */
  predicate AreKept(places: seq<nat>, count: nat) {
    && (forall i :: 0 <= i < |places| ==> places[i] < count)
    && forall i, j :: 0 <= i < j < |places| ==> places[i] < places[j]
  }

  function Kept(records: seq<int>, places: seq<nat>): (ps: seq<int>)
    requires AreKept(places, |records|)
    ensures |ps| == |places| && forall i :: 0 <= i < |ps| ==> ps[i] == records[places[i]]
  {
    seq(|places|, i requires 0 <= i < |places| => records[places[i]])
  }

  lemma KeptIsSorted(records: seq<int>, places: seq<nat>)
    requires P.Sorted(records) && AreKept(places, |records|)
    ensures P.Sorted(Kept(records, places))
  {
    forall i, j | 0 <= i <= j < |places|
      ensures records[places[i]] <= records[places[j]]
    {
      assert i < j ==> places[i] < places[j];
    }
  }

  predicate AllKept(runs: seq<seq<P.Event>>, places: seq<seq<nat>>) {
    |runs| == |places| && forall j :: 0 <= j < |runs| ==> AreKept(places[j], |P.After(runs[j]).loop.records|)
  }

  /** The positions of the records that reached the correlator. */
  function PositionsOf(runs: seq<seq<P.Event>>, places: seq<seq<nat>>): (positions: Positions)
    requires AllKept(runs, places)
    ensures |positions| == |runs|
    ensures forall j :: 0 <= j < |runs| ==> positions[j] == Kept(P.After(runs[j]).loop.records, places[j])
  {
    seq(|runs|, j requires 0 <= j < |runs| => Kept(P.After(runs[j]).loop.records, places[j]))
  }

  /** When every stream's player only moves on, or back far enough to be looping, then whatever the rings drop, the
      groups are as many as any matching by position makes, whatever the stamps of the producers' clocks and on all
      schedules that never trip the queue cap, exactly when no record that reached the correlator was made at
      position 0, some stream's records all got lost, or nothing matches within the tolerance. */
  lemma FollowableRunsPairBestIff(runs: seq<seq<P.Event>>, places: seq<seq<nat>>, window: int, limit: nat)
    requires |runs| >= 2 && AllKept(runs, places) && LateStamp(PositionsOf(runs, places), window) < limit
    requires forall j :: 0 <= j < |runs| ==> P.AllFollowable(runs[j])
    ensures var positions := PositionsOf(runs, places);
            Placed(positions) || !SomethingMatches(positions, window) <==>
            forall evs :: Plays(positions, evs, window, limit) ==> BestByPosition(|runs|, evs, window)
  {
    forall j | 0 <= j < |runs|
      ensures P.Sorted(PositionsOf(runs, places)[j])
    {
      P.RecordKeysSorted(runs[j]);
      KeptIsSorted(P.After(runs[j]).loop.records, places[j]);
    }
    BestIff(PositionsOf(runs, places), window, limit);
  }
}
