/** The merge finds as many groups as any way of matching the records could. */
module Matching {
  import opened Correlation

  /** A group names one position in every stream. */
  type Group = seq<nat>

  function Key(qs: Queues, useMedia: bool, j: nat, i: nat): int
    requires j < |qs| && i < |qs[j]|
  {
    PairingKey(qs[j][i], useMedia)
  }

  /** One record of every stream, no two of them further apart than the window. */
  ghost predicate Close(g: Group, qs: Queues, useMedia: bool, window: int) {
    && |g| == |qs|
    && (forall j :: 0 <= j < |qs| ==> g[j] < |qs[j]|)
    && (forall j, l :: 0 <= j < |qs| && 0 <= l < |qs| ==>
          Key(qs, useMedia, j, g[j]) - Key(qs, useMedia, l, g[l]) <= window)
  }

  /** No record is used twice. */
  ghost predicate Disjoint(m: seq<Group>, k: nat) {
    && (forall a :: 0 <= a < |m| ==> |m[a]| == k)
    && (forall a, b, j :: 0 <= a < b < |m| && 0 <= j < k ==> m[a][j] != m[b][j])
  }

  ghost predicate IsMatching(m: seq<Group>, qs: Queues, useMedia: bool, window: int) {
    && Disjoint(m, |qs|)
    && forall a :: 0 <= a < |m| ==> Close(m[a], qs, useMedia, window)
  }

  /** Every stream's pairing keys are nondecreasing. */
  ghost predicate Ordered(qs: Queues, useMedia: bool) {
    forall j, i, i' :: 0 <= j < |qs| && 0 <= i <= i' < |qs[j]| ==> Key(qs, useMedia, j, i) <= Key(qs, useMedia, j, i')
  }

  function Low(a: Group, b: Group): (c: Group)
    requires |a| == |b|
    ensures |c| == |a|
  {
    seq(|a|, j requires 0 <= j < |a| => if a[j] <= b[j] then a[j] else b[j])
  }

  function High(a: Group, b: Group): (c: Group)
    requires |a| == |b|
    ensures |c| == |a|
  {
    seq(|a|, j requires 0 <= j < |a| => if a[j] <= b[j] then b[j] else a[j])
  }

  /** Two groups can trade members so that one takes the earlier record of every stream. */
  lemma LowHighClose(a: Group, b: Group, qs: Queues, useMedia: bool, window: int)
    requires Ordered(qs, useMedia)
    requires Close(a, qs, useMedia, window) && Close(b, qs, useMedia, window)
    ensures Close(Low(a, b), qs, useMedia, window) && Close(High(a, b), qs, useMedia, window)
  {
    var lo, hi := Low(a, b), High(a, b);
    forall j, l | 0 <= j < |qs| && 0 <= l < |qs|
      ensures Key(qs, useMedia, j, lo[j]) - Key(qs, useMedia, l, lo[l]) <= window
      ensures Key(qs, useMedia, j, hi[j]) - Key(qs, useMedia, l, hi[l]) <= window
    {
      var x := if lo[l] == a[l] then a else b;
      assert Key(qs, useMedia, j, lo[j]) <= Key(qs, useMedia, j, x[j]);
      var y := if hi[j] == a[j] then a else b;
      assert Key(qs, useMedia, l, y[l]) <= Key(qs, useMedia, l, hi[l]);
    }
  }

  /** Pushes the earliest record of every stream into the first group. */
  ghost function Uncross(g: Group, rest: seq<Group>): (r: seq<Group>)
    requires forall a :: 0 <= a < |rest| ==> |rest[a]| == |g|
    ensures |r| == |rest| + 1
    ensures forall a :: 0 <= a < |r| ==> |r[a]| == |g|
    decreases |rest|
  {
    if rest == [] then [g]
    else
      var r := Uncross(Low(g, rest[0]), rest[1..]);
      [r[0], High(g, rest[0])] + r[1..]
  }

  ghost predicate Uses(m: seq<Group>, j: nat, i: nat) {
    exists a :: 0 <= a < |m| && j < |m[a]| && m[a][j] == i
  }

  lemma {:induction false} UncrossUses(g: Group, rest: seq<Group>, j: nat, i: nat)
    requires forall a :: 0 <= a < |rest| ==> |rest[a]| == |g|
    requires j < |g|
    requires Uses(Uncross(g, rest), j, i)
    ensures Uses([g] + rest, j, i)
    decreases |rest|
  {
    var u := Uncross(g, rest);
    var a :| 0 <= a < |u| && u[a][j] == i;
    var all := [g] + rest;
    if rest == [] {
      assert all[0] == g;
    } else {
      var h := rest[0];
      assert all[0] == g && all[1] == h;
      var r := Uncross(Low(g, h), rest[1..]);
      if a == 1 {
        assert i == g[j] || i == h[j];
      } else {
        assert u[a] == r[if a == 0 then 0 else a - 1];
        assert Uses(r, j, i);
        UncrossUses(Low(g, h), rest[1..], j, i);
        var t := [Low(g, h)] + rest[1..];
        var b :| 0 <= b < |t| && t[b][j] == i;
        if b == 0 {
          assert i == g[j] || i == h[j];
        } else {
          assert t[b] == all[b + 1];
        }
      }
    }
  }

  /** Stream j gives every group of m a different record. */
  ghost predicate DistinctAt(m: seq<Group>, j: nat) {
    && (forall a :: 0 <= a < |m| ==> j < |m[a]|)
    && forall a, b :: 0 <= a < b < |m| ==> m[a][j] != m[b][j]
  }

  lemma {:induction false} UncrossDistinct(g: Group, rest: seq<Group>, j: nat)
    requires forall a :: 0 <= a < |rest| ==> |rest[a]| == |g|
    requires j < |g| && DistinctAt([g] + rest, j)
    ensures DistinctAt(Uncross(g, rest), j)
    ensures forall a :: 1 <= a < |Uncross(g, rest)| ==> Uncross(g, rest)[0][j] < Uncross(g, rest)[a][j]
    decreases |rest|
  {
    var m := [g] + rest;
    if rest != [] {
      var h, more := rest[0], rest[1..];
      var lo, hi := Low(g, h), High(g, h);
      var t := [lo] + more;
      assert m[0] == g && m[1] == h;
      assert forall a :: 1 <= a < |t| ==> t[a] == m[a + 1];
      assert DistinctAt(t, j);
      UncrossDistinct(lo, more, j);
      var r := Uncross(lo, more);
      FirstIsLowest(lo, more, j);
      forall a | 0 <= a < |r| ensures r[a][j] != hi[j] {
        if r[a][j] == hi[j] {
          UncrossUses(lo, more, j, hi[j]);
          assert false;
        }
      }
      assert Uncross(g, rest) == [r[0], hi] + r[1..];
    }
  }

  lemma {:induction false} UncrossClose(g: Group, rest: seq<Group>, qs: Queues, useMedia: bool, window: int)
    requires Ordered(qs, useMedia) && Close(g, qs, useMedia, window)
    requires forall a :: 0 <= a < |rest| ==> |rest[a]| == |g|
    requires forall a :: 0 <= a < |rest| ==> Close(rest[a], qs, useMedia, window)
    ensures forall a :: 0 <= a < |Uncross(g, rest)| ==> Close(Uncross(g, rest)[a], qs, useMedia, window)
    decreases |rest|
  {
    if rest != [] {
      LowHighClose(g, rest[0], qs, useMedia, window);
      UncrossClose(Low(g, rest[0]), rest[1..], qs, useMedia, window);
    }
  }

  lemma {:induction false} FirstIsLowest(g: Group, rest: seq<Group>, j: nat)
    requires forall a :: 0 <= a < |rest| ==> |rest[a]| == |g|
    requires j < |g|
    ensures Uncross(g, rest)[0][j] <= g[j]
    decreases |rest|
  {
    if rest != [] {
      FirstIsLowest(Low(g, rest[0]), rest[1..], j);
    }
  }

  /** The queues after d[j] records of every stream j are gone. */
  ghost predicate Dropped(qs: Queues, d: seq<nat>, r: Queues) {
    && |r| == |qs| == |d|
    && forall j :: 0 <= j < |qs| ==> d[j] <= |qs[j]| && r[j] == qs[j][d[j]..]
  }

  ghost function Ones(k: nat): (d: seq<nat>)
    ensures |d| == k
  {
    seq(k, j => 1)
  }

  ghost function Unit(k: nat, e: nat): (d: seq<nat>)
    ensures |d| == k
  {
    seq(k, j => if j == e then 1 else 0)
  }

  ghost function Back(g: Group, d: seq<nat>): (r: Group)
    requires |g| == |d| && forall j :: 0 <= j < |g| ==> d[j] <= g[j]
    ensures |r| == |g| && forall j :: 0 <= j < |g| ==> r[j] == g[j] - d[j]
  {
    seq(|g|, j requires 0 <= j < |g| => g[j] - d[j])
  }

  ghost function Forward(g: Group, d: seq<nat>): (r: Group)
    requires |g| == |d|
    ensures |r| == |g| && forall j :: 0 <= j < |g| ==> r[j] == g[j] + d[j]
  {
    seq(|g|, j requires 0 <= j < |g| => g[j] + d[j])
  }

  /** A matching that leaves the first records alone is a matching of what follows them. */
  lemma MatchRest(m: seq<Group>, qs: Queues, d: seq<nat>, r: Queues, useMedia: bool, window: int)
    returns (n: seq<Group>)
    requires Dropped(qs, d, r) && IsMatching(m, qs, useMedia, window)
    requires forall a, j :: 0 <= a < |m| && 0 <= j < |qs| ==> d[j] <= m[a][j]
    ensures |n| == |m| && IsMatching(n, r, useMedia, window)
  {
    n := seq(|m|, a requires 0 <= a < |m| => Back(m[a], d));
    forall a | 0 <= a < |n| ensures Close(n[a], r, useMedia, window) {
      assert Close(m[a], qs, useMedia, window);
      assert forall j :: 0 <= j < |qs| ==> n[a][j] < |r[j]| && r[j][n[a][j]] == qs[j][m[a][j]];
    }
  }

  lemma OrderedRest(qs: Queues, d: seq<nat>, r: Queues, useMedia: bool)
    requires Dropped(qs, d, r) && Ordered(qs, useMedia)
    ensures Ordered(r, useMedia)
  {
    forall j, i, i' | 0 <= j < |r| && 0 <= i <= i' < |r[j]|
      ensures Key(r, useMedia, j, i) <= Key(r, useMedia, j, i')
    {
      assert Key(qs, useMedia, j, i + d[j]) <= Key(qs, useMedia, j, i' + d[j]);
    }
  }

  /** Taking the fronts as one group costs any matching at most one of its groups. */
  lemma AfterGroup(m: seq<Group>, qs: Queues, useMedia: bool, window: int) returns (n: seq<Group>)
    requires |m| > 0 && AllNonEmpty(qs) && Ordered(qs, useMedia)
    requires IsMatching(m, qs, useMedia, window)
    ensures |n| == |m| - 1 && IsMatching(n, PopAll(qs), useMedia, window)
  {
    assert m == [m[0]] + m[1..];
    var u := Uncross(m[0], m[1..]);
    UncrossClose(m[0], m[1..], qs, useMedia, window);
    forall j | 0 <= j < |qs|
      ensures DistinctAt(u, j) && forall a :: 1 <= a < |u| ==> u[0][j] < u[a][j]
    {
      assert DistinctAt(m, j);
      UncrossDistinct(m[0], m[1..], j);
    }
    TailKeepsClear(u, |qs|);
    n := MatchRest(u[1..], qs, Ones(|qs|), PopAll(qs), useMedia, window);
  }

  /** The groups after the lowest one are disjoint and use no first record. */
  lemma TailKeepsClear(u: seq<Group>, k: nat)
    requires |u| > 0 && forall a :: 0 <= a < |u| ==> |u[a]| == k
    requires forall j :: 0 <= j < k ==> DistinctAt(u, j) && forall a :: 1 <= a < |u| ==> u[0][j] < u[a][j]
    ensures Disjoint(u[1..], k)
    ensures forall a, j :: 0 <= a < |u[1..]| && 0 <= j < k ==> 1 <= u[1..][a][j]
  {
    var v := u[1..];
    forall a, b, j | 0 <= a < b < |v| && 0 <= j < k
      ensures v[a][j] != v[b][j]
    {
      assert DistinctAt(u, j);
    }
    forall a, j | 0 <= a < |v| && 0 <= j < k
      ensures 1 <= v[a][j]
    {
      assert u[0][j] < u[a + 1][j];
    }
  }

  /** A front too far behind the latest front is in no group of any matching. */
  lemma EarliestIsUnmatchable(g: Group, qs: Queues, useMedia: bool, window: int)
    requires |qs| >= 1 && AllNonEmpty(qs) && Ordered(qs, useMedia) && Close(g, qs, useMedia, window)
    requires Spread(qs, useMedia) > window
    ensures g[Earliest(qs, useMedia, |qs|)] > 0
  {
    var e, l := Earliest(qs, useMedia, |qs|), Latest(qs, useMedia, |qs|);
    assert Key(qs, useMedia, l, 0) <= Key(qs, useMedia, l, g[l]);
    assert Key(qs, useMedia, l, g[l]) - Key(qs, useMedia, e, g[e]) <= window;
  }

  lemma AfterRetire(m: seq<Group>, qs: Queues, useMedia: bool, window: int) returns (n: seq<Group>)
    requires |qs| >= 1 && AllNonEmpty(qs) && Ordered(qs, useMedia)
    requires Spread(qs, useMedia) > window
    requires IsMatching(m, qs, useMedia, window)
    ensures |n| == |m| && IsMatching(n, PopOne(qs, Earliest(qs, useMedia, |qs|)), useMedia, window)
  {
    var e := Earliest(qs, useMedia, |qs|);
    var d := Unit(|qs|, e);
    forall a, j | 0 <= a < |m| && 0 <= j < |qs| ensures d[j] <= m[a][j] {
      EarliestIsUnmatchable(m[a], qs, useMedia, window);
    }
    n := MatchRest(m, qs, d, PopOne(qs, e), useMedia, window);
  }

  lemma CloseMeansNonEmpty(g: Group, qs: Queues, useMedia: bool, window: int)
    requires Close(g, qs, useMedia, window)
    ensures AllNonEmpty(qs)
  {
  }

  /** No way of matching the records makes more groups than the merge does. */
  lemma {:induction false} MergeIsMaximal(m: seq<Group>, qs: Queues, useMedia: bool, window: int)
    requires |qs| >= 2 && Ordered(qs, useMedia)
    requires IsMatching(m, qs, useMedia, window)
    ensures |m| <= |Merge(qs, useMedia, window).groups|
    decreases Total(qs)
  {
    if !AllNonEmpty(qs) {
      if |m| > 0 {
        CloseMeansNonEmpty(m[0], qs, useMedia, window);
        assert false;
      }
    } else if |m| > 0 && Spread(qs, useMedia) <= window {
      var n := AfterGroup(m, qs, useMedia, window);
      OrderedRest(qs, Ones(|qs|), PopAll(qs), useMedia);
      TotalPopAll(qs);
      MergeIsMaximal(n, PopAll(qs), useMedia, window);
    } else if |m| > 0 {
      var e := Earliest(qs, useMedia, |qs|);
      var n := AfterRetire(m, qs, useMedia, window);
      OrderedRest(qs, Unit(|qs|, e), PopOne(qs, e), useMedia);
      TotalPopOne(qs, e);
      MergeIsMaximal(n, PopOne(qs, e), useMedia, window);
    }
  }

  /** The positions the merge's groups come from. */
  ghost function Picks(qs: Queues, useMedia: bool, window: int): (m: seq<Group>)
    requires |qs| >= 1
    ensures forall a :: 0 <= a < |m| ==> |m[a]| == |qs|
    decreases Total(qs)
  {
    if !AllNonEmpty(qs) then []
    else if Spread(qs, useMedia) <= window then
      TotalPopAll(qs);
      [Zeros(|qs|)] + Advance(Picks(PopAll(qs), useMedia, window), Ones(|qs|))
    else
      var e := Earliest(qs, useMedia, |qs|);
      TotalPopOne(qs, e);
      Advance(Picks(PopOne(qs, e), useMedia, window), Unit(|qs|, e))
  }

  ghost function Advance(m: seq<Group>, d: seq<nat>): (n: seq<Group>)
    requires forall a :: 0 <= a < |m| ==> |m[a]| == |d|
    ensures |n| == |m| && forall a :: 0 <= a < |m| ==> n[a] == Forward(m[a], d)
  {
    seq(|m|, a requires 0 <= a < |m| => Forward(m[a], d))
  }

  /** Picks of what follows the first records, moved forward, are picks of the whole. */
  lemma AdvanceMatching(m: seq<Group>, qs: Queues, d: seq<nat>, r: Queues, useMedia: bool, window: int)
    requires Dropped(qs, d, r) && IsMatching(m, r, useMedia, window)
    ensures IsMatching(Advance(m, d), qs, useMedia, window)
  {
    var n := Advance(m, d);
    forall a | 0 <= a < |n| ensures Close(n[a], qs, useMedia, window) {
      assert Close(m[a], r, useMedia, window);
      assert forall j :: 0 <= j < |qs| ==> r[j][m[a][j]] == qs[j][n[a][j]];
    }
  }

  /** The records at the picked positions. */
  ghost predicate AreMadeOf(groups: seq<seq<Frame>>, m: seq<Group>, qs: Queues) {
    && |groups| == |m|
    && forall a :: 0 <= a < |m| ==> IsMadeOf(groups[a], m[a], qs)
  }

  ghost predicate IsMadeOf(group: seq<Frame>, g: Group, qs: Queues) {
    && |group| == |g| == |qs|
    && forall j :: 0 <= j < |qs| ==> g[j] < |qs[j]| && group[j] == qs[j][g[j]]
  }

  lemma AdvanceMadeOf(groups: seq<seq<Frame>>, m: seq<Group>, qs: Queues, d: seq<nat>, r: Queues)
    requires Dropped(qs, d, r) && AreMadeOf(groups, m, r)
    ensures AreMadeOf(groups, Advance(m, d), qs)
  {
    forall a | 0 <= a < |m| ensures IsMadeOf(groups[a], Advance(m, d)[a], qs) {
      assert IsMadeOf(groups[a], m[a], r);
    }
  }

  lemma FrontsAreClose(qs: Queues, useMedia: bool, window: int)
    requires |qs| >= 1 && AllNonEmpty(qs) && Spread(qs, useMedia) <= window
    ensures Close(Zeros(|qs|), qs, useMedia, window)
  {
    var z := Zeros(|qs|);
    forall j, l | 0 <= j < |qs| && 0 <= l < |qs|
      ensures Key(qs, useMedia, j, z[j]) - Key(qs, useMedia, l, z[l]) <= window
    {
      assert FrontKey(qs, useMedia, j) <= FrontKey(qs, useMedia, Latest(qs, useMedia, |qs|));
      assert FrontKey(qs, useMedia, l) >= FrontKey(qs, useMedia, Earliest(qs, useMedia, |qs|));
    }
  }

  /** A matching that leaves the fronts alone can take them in as one more group. */
  lemma FrontsFirst(m: seq<Group>, qs: Queues, useMedia: bool, window: int)
    requires |qs| >= 1 && Close(Zeros(|qs|), qs, useMedia, window)
    requires IsMatching(m, qs, useMedia, window)
    requires forall a, j :: 0 <= a < |m| && 0 <= j < |qs| ==> m[a][j] > 0
    ensures IsMatching([Zeros(|qs|)] + m, qs, useMedia, window)
  {
    var n := [Zeros(|qs|)] + m;
    assert forall a :: 1 <= a < |n| ==> n[a] == m[a - 1];
  }

  lemma MatchingAfterGroup(m: seq<Group>, qs: Queues, useMedia: bool, window: int)
    requires |qs| >= 1 && AllNonEmpty(qs) && Spread(qs, useMedia) <= window
    requires IsMatching(m, PopAll(qs), useMedia, window)
    ensures IsMatching([Zeros(|qs|)] + Advance(m, Ones(|qs|)), qs, useMedia, window)
  {
    var d := Ones(|qs|);
    assert Dropped(qs, d, PopAll(qs));
    AdvanceMatching(m, qs, d, PopAll(qs), useMedia, window);
    FrontsAreClose(qs, useMedia, window);
    FrontsFirst(Advance(m, d), qs, useMedia, window);
  }

  lemma MadeOfAfterGroup(groups: seq<seq<Frame>>, m: seq<Group>, qs: Queues)
    requires |qs| >= 1 && AllNonEmpty(qs) && AreMadeOf(groups, m, PopAll(qs))
    ensures AreMadeOf([Fronts(qs)] + groups, [Zeros(|qs|)] + Advance(m, Ones(|qs|)), qs)
  {
    var d := Ones(|qs|);
    assert Dropped(qs, d, PopAll(qs));
    AdvanceMadeOf(groups, m, qs, d, PopAll(qs));
    assert IsMadeOf(Fronts(qs), Zeros(|qs|), qs);
  }

  /** The merge's groups are themselves such a matching, of exactly the records they hold. */
  lemma {:induction false} MergeIsMatching(qs: Queues, useMedia: bool, window: int)
    requires |qs| >= 1
    ensures IsMatching(Picks(qs, useMedia, window), qs, useMedia, window)
    ensures AreMadeOf(Merge(qs, useMedia, window).groups, Picks(qs, useMedia, window), qs)
    decreases Total(qs)
  {
    if AllNonEmpty(qs) {
      if Spread(qs, useMedia) <= window {
        TotalPopAll(qs);
        MergeIsMatching(PopAll(qs), useMedia, window);
        MatchingAfterGroup(Picks(PopAll(qs), useMedia, window), qs, useMedia, window);
        MadeOfAfterGroup(Merge(PopAll(qs), useMedia, window).groups, Picks(PopAll(qs), useMedia, window), qs);
      } else {
        var e := Earliest(qs, useMedia, |qs|);
        var d, r := Unit(|qs|, e), PopOne(qs, e);
        TotalPopOne(qs, e);
        MergeIsMatching(r, useMedia, window);
        AdvanceMatching(Picks(r, useMedia, window), qs, d, r, useMedia, window);
        AdvanceMadeOf(Merge(r, useMedia, window).groups, Picks(r, useMedia, window), qs, d, r);
      }
    }
  }
}
