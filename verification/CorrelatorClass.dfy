/** The correlator itself: queues, counters and records of differences updated in place. */
module CorrelatorClass {
  import opened Correlation
  import S = Schedule

  predicate AllHave(groups: seq<seq<Frame>>, i: nat) {
    forall k :: 0 <= k < |groups| ==> i < |groups[k]|
  }

  /** The gpu totals of stream i over these groups, in order. */
  predicate AreTotals(groups: seq<seq<Frame>>, i: nat, totals: seq<nat>) {
    AllHave(groups, i) && |totals| == |groups| && forall k :: 0 <= k < |groups| ==> totals[k] == groups[k][i].gpu
  }

  /** What stream i takes more than the baseline: added to the baseline's gpu total it gives that of stream i. */
  predicate AreDifferences(groups: seq<seq<Frame>>, i: nat, ds: seq<int>) {
    && AllHave(groups, i) && |ds| == |groups|
    && forall k :: 0 <= k < |groups| ==> ToInt64(groups[k][0].gpu) + ds[k] == ToInt64(groups[k][i].gpu)
  }

  /** The groups in which stream i took less than the baseline. */
  function CheaperIn(groups: seq<seq<Frame>>, i: nat): set<int>
    requires AllHave(groups, i)
  {
    set k | 0 <= k < |groups| && ToInt64(groups[k][i].gpu) < ToInt64(groups[k][0].gpu)
  }

  /** What is kept of stream i is what these groups show of it. */
  predicate Shows(groups: seq<seq<Frame>>, i: nat, totals: seq<nat>, ds: seq<int>, cheaper: nat) {
    AreTotals(groups, i, totals) && (i > 0 ==> AreDifferences(groups, i, ds) && cheaper == |CheaperIn(groups, i)|)
  }

  lemma ShowsNothing(i: nat)
    ensures Shows([], i, [], [], 0)
  {
    assert CheaperIn([], i) == {};
  }

  lemma CheaperSnoc(groups: seq<seq<Frame>>, g: seq<Frame>, i: nat)
    requires AllHave(groups, i) && i < |g|
    ensures AllHave(groups + [g], i)
    ensures |CheaperIn(groups + [g], i)| ==
            |CheaperIn(groups, i)| + if ToInt64(g[i].gpu) < ToInt64(g[0].gpu) then 1 else 0
  {
    var last := if ToInt64(g[i].gpu) < ToInt64(g[0].gpu) then {|groups|} else {};
    assert CheaperIn(groups + [g], i) == CheaperIn(groups, i) + last;
  }

  lemma ShowsSnoc(groups: seq<seq<Frame>>, g: seq<Frame>, i: nat, totals: seq<nat>, ds: seq<int>, cheaper: nat, d: int)
    requires Shows(groups, i, totals, ds, cheaper) && i < |g| && ToInt64(g[0].gpu) + d == ToInt64(g[i].gpu)
    ensures Shows(groups + [g], i, totals + [g[i].gpu], ds + [d], cheaper + if d < 0 then 1 else 0)
    ensures i == 0 ==> Shows(groups + [g], i, totals + [g[i].gpu], ds, cheaper)
  {
    CheaperSnoc(groups, g, i);
  }

  /** What is left of a merge that has come this far. */
  predicate Remains(all: Outcome, groups: seq<seq<Frame>>, unmatched: seq<nat>, rest: Outcome, unmatched0: seq<nat>,
                    groups0: seq<seq<Frame>>) {
    && |all.unmatched| == |unmatched| == |rest.unmatched| == |unmatched0|
    && groups0 + all.groups == groups + rest.groups
    && Plus(unmatched0, all.unmatched) == Plus(unmatched, rest.unmatched)
    && all.rest == rest.rest
  }

  lemma GroupRemains(all: Outcome, groups: seq<seq<Frame>>, unmatched: seq<nat>, qs: Queues, useMedia: bool,
                     window: int, unmatched0: seq<nat>, groups0: seq<seq<Frame>>)
    requires |qs| >= 1 && AllNonEmpty(qs) && Spread(qs, useMedia) <= window
    requires Remains(all, groups, unmatched, Merge(qs, useMedia, window), unmatched0, groups0)
    ensures Remains(all, groups + [Fronts(qs)], unmatched, Merge(PopAll(qs), useMedia, window), unmatched0, groups0)
  {
    var g := Merge(PopAll(qs), useMedia, window).groups;
    assert groups + ([Fronts(qs)] + g) == groups + [Fronts(qs)] + g;
  }

  lemma DropRemains(all: Outcome, groups: seq<seq<Frame>>, unmatched: seq<nat>, qs: Queues, useMedia: bool, window: int,
                    unmatched0: seq<nat>, groups0: seq<seq<Frame>>, e: nat)
    requires |qs| >= 1 && AllNonEmpty(qs) && Spread(qs, useMedia) > window && e == Earliest(qs, useMedia, |qs|) &&
             |unmatched| == |qs|
    requires Remains(all, groups, unmatched, Merge(qs, useMedia, window), unmatched0, groups0)
    ensures Remains(all, groups, unmatched[e := unmatched[e] + 1], Merge(PopOne(qs, e), useMedia, window),
                    unmatched0, groups0)
  {
    var lost := Merge(PopOne(qs, e), useMedia, window).unmatched;
    PlusMoves(unmatched, lost, e);
  }

  lemma NothingRemains(all: Outcome, groups: seq<seq<Frame>>, unmatched: seq<nat>, qs: Queues, useMedia: bool,
                       window: int, unmatched0: seq<nat>, groups0: seq<seq<Frame>>)
    requires |qs| >= 1 && !AllNonEmpty(qs)
    requires Remains(all, groups, unmatched, Merge(qs, useMedia, window), unmatched0, groups0)
    ensures groups == groups0 + all.groups && unmatched == Plus(unmatched0, all.unmatched) && qs == all.rest
  {
    assert groups + [] == groups;
    assert Plus(unmatched, Zeros(|qs|)) == unmatched;
  }

  lemma PlusMoves(a: seq<nat>, b: seq<nat>, e: nat)
    requires |a| == |b| && e < |a|
    ensures Plus(a[e := a[e] + 1], b) == Plus(a, b[e := b[e] + 1])
  {
  }

  /** The scan has seen the first n fronts. */
  predicate Scanned(qs: Queues, useMedia: bool, n: nat, earliest: nat, minKey: int, maxKey: int)
    requires 1 <= n <= |qs| && AllNonEmpty(qs)
  {
    && earliest == Earliest(qs, useMedia, n) && minKey == FrontKey(qs, useMedia, earliest)
    && maxKey == FrontKey(qs, useMedia, Latest(qs, useMedia, n))
  }

  lemma ScansNext(qs: Queues, useMedia: bool, n: nat, earliest: nat, minKey: int, maxKey: int, key: int)
    requires 1 <= n < |qs| && AllNonEmpty(qs) && Scanned(qs, useMedia, n, earliest, minKey, maxKey)
    requires key == FrontKey(qs, useMedia, n)
    ensures Scanned(qs, useMedia, n + 1, if key < minKey then n else earliest, if key < minKey then key else minKey,
                    if key > maxKey then key else maxKey)
  {
  }

  class Correlator {
    const tolerance: nat
    var queues: Queues
    var mediaSeen: seq<bool>
    var useMediaTime: bool
    var unmatched: seq<nat>
    var grouped: nat
    var cheaper: seq<nat>
    var gpuDelta: seq<seq<int>>
    var gpuGrouped: seq<seq<nat>>
    ghost var groups: seq<seq<Frame>>

    constructor (streamCount: nat, tolerance: nat)
      ensures Valid() && State() == S.Start(if streamCount < 2 then 2 else streamCount)
      ensures this.tolerance == tolerance
    {
      var k := if streamCount < 2 then 2 else streamCount;
      this.tolerance := tolerance;
      queues := seq(k, j => []);
      mediaSeen := seq(k, j => false);
      useMediaTime := false;
      unmatched := Zeros(k);
      grouped := 0;
      cheaper := seq(k, j => 0);
      gpuDelta := seq(k, j => []);
      gpuGrouped := seq(k, j => []);
      groups := [];
      forall i | 0 <= i < k ensures Shows([], i, [], [], 0) {
        ShowsNothing(i);
      }
    }

    ghost function State(): S.State
      reads this
    {
      S.State(queues, mediaSeen, useMediaTime, unmatched, groups)
    }

    /** The counters, the totals and the differences are those of the groups so far. */
    ghost predicate Valid()
      reads this
    {
      && S.WellFormed(State(), |queues|)
      && |cheaper| == |gpuDelta| == |gpuGrouped| == |queues|
      && grouped == |groups|
      && forall i :: 0 <= i < |queues| ==> Shows(groups, i, gpuGrouped[i], gpuDelta[i], cheaper[i])
    }

    method Push(stream: nat, records: seq<Frame>)
      requires Valid()
      modifies this`queues, this`mediaSeen, this`useMediaTime
      ensures Valid() && State() == S.PushTo(old(State()), stream, records)
    {
      if stream >= |queues| {
        return;
      }
      AppendNone(queues, stream);
      assert records[..0] == [];
      for i := 0 to |records|
        modifies this`queues, this`mediaSeen
        invariant |mediaSeen| == |queues| == |old(queues)|
        invariant queues == S.Append(old(queues), stream, records[..i])
        invariant mediaSeen == if S.HasMedia(records[..i]) then old(mediaSeen)[stream := true] else old(mediaSeen)
      {
        var r := records[i];
        ghost var before := records[..i];
        assert records[..i + 1] == before + [r];
        HasMediaSnoc(before, r);
        AppendMore(old(queues), stream, before, r);
        if r.media > 0 {
          mediaSeen := mediaSeen[stream := true];
        }
        queues := queues[stream := queues[stream] + [r]];
      }
      assert records[..|records|] == records;
      assert Valid();
      useMediaTime := true;
      for j := 0 to |mediaSeen|
        modifies this`useMediaTime
        invariant useMediaTime == S.AllTrue(mediaSeen[..j])
      {
        if !mediaSeen[j] {
          useMediaTime := false;
        }
        assert mediaSeen[..j + 1] == mediaSeen[..j] + [mediaSeen[j]];
      }
      assert mediaSeen[..|mediaSeen|] == mediaSeen;
    }

    method EveryStreamHasSomething() returns (all: bool)
      ensures all == AllNonEmpty(queues)
    {
      for j := 0 to |queues|
        invariant forall i :: 0 <= i < j ==> |queues[i]| > 0
      {
        if |queues[j]| == 0 {
          return false;
        }
      }
      all := true;
    }

    /** The first stream with the smallest front key, and how far apart the front keys are. */
    method ScanFronts() returns (earliest: nat, spread: int)
      requires |queues| >= 1 && AllNonEmpty(queues)
      ensures earliest == Earliest(queues, useMediaTime, |queues|) && spread == Spread(queues, useMediaTime)
    {
      var qs, useMedia := queues, useMediaTime;
      earliest := 0;
      var minKey := PairingKey(qs[0][0], useMedia);
      var maxKey := minKey;
      for i := 1 to |qs|
        invariant Scanned(qs, useMedia, i, earliest, minKey, maxKey)
      {
        var key := PairingKey(qs[i][0], useMedia);
        ScansNext(qs, useMedia, i, earliest, minKey, maxKey, key);
        if key < minKey {
          minKey := key;
          earliest := i;
        }
        if key > maxKey {
          maxKey := key;
        }
      }
      spread := maxKey - minKey;
    }

    /** Takes the front of every queue as one group. */
    method EmitGroup()
      requires Valid() && AllNonEmpty(queues)
      modifies this`queues, this`grouped, this`cheaper, this`gpuDelta, this`gpuGrouped, this`groups
      ensures Valid() && State() == old(State()).(queues := PopAll(old(queues)),
                                                  groups := old(groups) + [Fronts(old(queues))])
    {
      RecordDeltas();
      grouped := grouped + 1;
      groups := groups + [Fronts(queues)];
      queues := PopAll(queues);
    }

    /** What EmitGroup records: the total of the first stream, then totals and differences of the others. */
    method RecordDeltas()
      requires Valid() && AllNonEmpty(queues)
      modifies this`cheaper, this`gpuDelta, this`gpuGrouped
      ensures |cheaper| == |gpuDelta| == |gpuGrouped| == |queues|
      ensures forall j :: 0 <= j < |queues| ==>
                Shows(groups + [Fronts(queues)], j, gpuGrouped[j], gpuDelta[j], cheaper[j])
    {
      ShowsSnoc(groups, Fronts(queues), 0, gpuGrouped[0], gpuDelta[0], cheaper[0], 0);
      gpuGrouped := gpuGrouped[0 := gpuGrouped[0] + [queues[0][0].gpu]];
      for i := 1 to |queues|
        invariant |cheaper| == |gpuDelta| == |gpuGrouped| == |queues|
        invariant forall j :: i <= j < |queues| ==> Shows(groups, j, gpuGrouped[j], gpuDelta[j], cheaper[j])
        invariant forall j :: 0 <= j < i ==>
                    Shows(groups + [Fronts(queues)], j, gpuGrouped[j], gpuDelta[j], cheaper[j])
      {
        RecordDelta(i);
      }
    }

    method RecordDelta(i: nat)
      requires 1 <= i < |queues| == |cheaper| == |gpuDelta| == |gpuGrouped| && AllNonEmpty(queues)
      requires Shows(groups, i, gpuGrouped[i], gpuDelta[i], cheaper[i])
      modifies this`cheaper, this`gpuDelta, this`gpuGrouped
      ensures |cheaper| == |gpuDelta| == |gpuGrouped| == |queues|
      ensures forall j :: 0 <= j < |queues| && j != i ==>
                gpuGrouped[j] == old(gpuGrouped)[j] && gpuDelta[j] == old(gpuDelta)[j] && cheaper[j] == old(cheaper)[j]
      ensures Shows(groups + [Fronts(queues)], i, gpuGrouped[i], gpuDelta[i], cheaper[i])
    {
      var delta := ToInt64(queues[i][0].gpu) - ToInt64(queues[0][0].gpu);
      ShowsSnoc(groups, Fronts(queues), i, gpuGrouped[i], gpuDelta[i], cheaper[i], delta);
      gpuDelta := gpuDelta[i := gpuDelta[i] + [delta]];
      gpuGrouped := gpuGrouped[i := gpuGrouped[i] + [queues[i][0].gpu]];
      if delta < 0 {
        cheaper := cheaper[i := cheaper[i] + 1];
      }
    }

    /** One round of the loop of Process: a group, or the earliest front retired. */
    method MergeRound(ghost all: Outcome, ghost unmatched0: seq<nat>, ghost groups0: seq<seq<Frame>>)
      requires Valid() && AllNonEmpty(queues)
      requires Remains(all, groups, unmatched, Merge(queues, useMediaTime, ToInt64(tolerance)), unmatched0, groups0)
      modifies this`queues, this`unmatched, this`grouped, this`cheaper, this`gpuDelta, this`gpuGrouped, this`groups
      ensures Valid() && |queues| == |old(queues)| && Total(queues) < Total(old(queues))
      ensures Remains(all, groups, unmatched, Merge(queues, useMediaTime, ToInt64(tolerance)), unmatched0, groups0)
    {
      var window := ToInt64(tolerance);
      var earliest, spread := ScanFronts();
      if spread <= window {
        GroupRound(window, all, unmatched0, groups0);
      } else {
        RetireRound(earliest, window, all, unmatched0, groups0);
      }
    }

    method GroupRound(window: int, ghost all: Outcome, ghost unmatched0: seq<nat>, ghost groups0: seq<seq<Frame>>)
      requires Valid() && AllNonEmpty(queues) && Spread(queues, useMediaTime) <= window
      requires Remains(all, groups, unmatched, Merge(queues, useMediaTime, window), unmatched0, groups0)
      modifies this`queues, this`grouped, this`cheaper, this`gpuDelta, this`gpuGrouped, this`groups
      ensures Valid() && |queues| == |old(queues)| && Total(queues) < Total(old(queues))
      ensures Remains(all, groups, unmatched, Merge(queues, useMediaTime, window), unmatched0, groups0)
    {
      GroupRemains(all, groups, unmatched, queues, useMediaTime, window, unmatched0, groups0);
      TotalPopAll(queues);
      EmitGroup();
    }

    method RetireRound(e: nat, window: int, ghost all: Outcome, ghost unmatched0: seq<nat>,
                       ghost groups0: seq<seq<Frame>>)
      requires Valid() && AllNonEmpty(queues) && Spread(queues, useMediaTime) > window
      requires e == Earliest(queues, useMediaTime, |queues|)
      requires Remains(all, groups, unmatched, Merge(queues, useMediaTime, window), unmatched0, groups0)
      modifies this`queues, this`unmatched
      ensures Valid() && |queues| == |old(queues)| && Total(queues) < Total(old(queues))
      ensures Remains(all, groups, unmatched, Merge(queues, useMediaTime, window), unmatched0, groups0)
    {
      ghost var before := queues;
      DropRemains(all, groups, unmatched, before, useMediaTime, window, unmatched0, groups0, e);
      TotalPopOne(before, e);
      Retire(e);
    }

    /** The front of a queue can never match. */
    method Retire(e: nat)
      requires Valid() && e < |queues| && |queues[e]| > 0
      modifies this`queues, this`unmatched
      ensures Valid() && queues == PopOne(old(queues), e) && unmatched == old(unmatched)[e := old(unmatched)[e] + 1]
    {
      unmatched := unmatched[e := unmatched[e] + 1];
      queues := queues[e := queues[e][1..]];
    }

    /** The merge loop of Process, up to where some queue is empty. */
    method MergeQueues()
      requires Valid()
      modifies this`queues, this`unmatched, this`grouped, this`cheaper, this`gpuDelta, this`gpuGrouped, this`groups
      ensures Valid() && |queues| == |old(queues)|
      ensures var m := Merge(old(queues), useMediaTime, ToInt64(tolerance));
              queues == m.rest && unmatched == Plus(old(unmatched), m.unmatched) && groups == old(groups) + m.groups
    {
      ghost var all := Merge(queues, useMediaTime, ToInt64(tolerance));
      var ready := EveryStreamHasSomething();
      while ready
        modifies this`queues, this`unmatched, this`grouped, this`cheaper, this`gpuDelta, this`gpuGrouped, this`groups
        invariant Valid() && |queues| == |old(queues)| && ready == AllNonEmpty(queues)
        invariant Remains(all, groups, unmatched, Merge(queues, useMediaTime, ToInt64(tolerance)), old(unmatched),
                          old(groups))
        decreases Total(queues)
      {
        MergeRound(all, old(unmatched), old(groups));
        ready := EveryStreamHasSomething();
      }
      NothingRemains(all, groups, unmatched, queues, useMediaTime, ToInt64(tolerance), old(unmatched), old(groups));
    }

    method Process(flush: bool)
      requires Valid()
      modifies this`queues, this`unmatched, this`grouped, this`cheaper, this`gpuDelta, this`gpuGrouped, this`groups
      ensures Valid() && State() == S.ProcessOnce(old(State()), ToInt64(tolerance), flush)
    {
      MergeQueues();
      if flush {
        Flush();
      } else {
        TrimQueues();
      }
    }

    method Flush()
      requires Valid()
      modifies this`queues, this`unmatched
      ensures Valid()
      ensures State() == old(State()).(queues := seq(|old(queues)|, j => []),
                                       unmatched := Plus(old(unmatched), S.Lengths(old(queues))))
    {
      for i := 0 to |queues|
        invariant |queues| == |unmatched| == |old(queues)|
        invariant forall j :: 0 <= j < i ==> queues[j] == [] && unmatched[j] == old(unmatched)[j] + |old(queues)[j]|
        invariant forall j :: i <= j < |queues| ==> queues[j] == old(queues)[j] && unmatched[j] == old(unmatched)[j]
      {
        unmatched := unmatched[i := unmatched[i] + |queues[i]|];
        queues := queues[i := []];
      }
      assert queues == seq(|old(queues)|, j => []);
      assert unmatched == Plus(old(unmatched), S.Lengths(old(queues)));
    }

    /** Retires the oldest records of queues past the cap. */
    method TrimQueues()
      requires Valid()
      modifies this`queues, this`unmatched
      ensures Valid()
      ensures State() == old(State()).(queues := S.Trim(old(queues)),
                                       unmatched := Plus(old(unmatched), S.Excess(old(queues))))
    {
      for i := 0 to |queues|
        invariant |queues| == |unmatched| == |old(queues)|
        invariant forall j :: 0 <= j < i ==>
          queues[j] == S.Trim(old(queues))[j] && unmatched[j] == old(unmatched)[j] + S.Excess(old(queues))[j]
        invariant forall j :: i <= j < |queues| ==> queues[j] == old(queues)[j] && unmatched[j] == old(unmatched)[j]
      {
        TrimQueue(i);
      }
      assert queues == S.Trim(old(queues));
      assert unmatched == Plus(old(unmatched), S.Excess(old(queues)));
    }

    method TrimQueue(i: nat)
      requires |queues| == |unmatched| && i < |queues|
      modifies this`queues, this`unmatched
      ensures queues == old(queues)[i := old(queues)[i][S.Over(|old(queues)[i]|)..]]
      ensures unmatched == old(unmatched)[i := old(unmatched)[i] + S.Over(|old(queues)[i]|)]
    {
      ghost var q, n := queues[i], 0;
      while |queues[i]| > S.MAX_QUEUED
        invariant |queues| == |unmatched| == |old(queues)| && n <= S.Over(|q|)
        invariant queues == old(queues)[i := q[n..]] && unmatched == old(unmatched)[i := old(unmatched)[i] + n]
        decreases |queues[i]|
      {
        unmatched := unmatched[i := unmatched[i] + 1];
        queues := queues[i := queues[i][1..]];
        assert q[n..][1..] == q[n + 1..];
        n := n + 1;
      }
    }

    method Reset()
      requires Valid()
      modifies this
      ensures Valid() && State() == S.Start(|old(queues)|)
    {
      queues := seq(|queues|, j => []);
      mediaSeen := seq(|queues|, j => false);
      useMediaTime := false;
      unmatched := Zeros(|queues|);
      grouped := 0;
      cheaper := seq(|queues|, j => 0);
      gpuDelta := seq(|queues|, j => []);
      gpuGrouped := seq(|queues|, j => []);
      groups := [];
      forall i | 0 <= i < |queues| ensures Shows([], i, [], [], 0) {
        ShowsNothing(i);
      }
    }
  }

  lemma AppendNone(qs: Queues, j: nat)
    requires j < |qs|
    ensures S.Append(qs, j, []) == qs
  {
    assert qs[j] + [] == qs[j];
  }

  lemma AppendMore(qs: Queues, j: nat, fs: seq<Frame>, f: Frame)
    requires j < |qs|
    ensures var a := S.Append(qs, j, fs); S.Append(qs, j, fs + [f]) == a[j := a[j] + [f]]
  {
    assert qs[j] + (fs + [f]) == qs[j] + fs + [f];
  }

  lemma HasMediaSnoc(fs: seq<Frame>, f: Frame)
    ensures S.HasMedia(fs + [f]) <==> S.HasMedia(fs) || f.media > 0
  {
    if S.HasMedia(fs) {
      var i :| 0 <= i < |fs| && fs[i].media > 0;
      assert (fs + [f])[i].media > 0;
    }
    if f.media > 0 {
      assert (fs + [f])[|fs|].media > 0;
    }
    if S.HasMedia(fs + [f]) && f.media <= 0 {
      var i :| 0 <= i < |fs + [f]| && (fs + [f])[i].media > 0;
      assert i < |fs| && fs[i].media > 0;
    }
  }
}
