/** The values the frame correlator works on, and its merge as a function of the queues. */
module Correlation {

  import opened Bits

  const TWO63: int := 0x8000_0000_0000_0000

  /** The part of a telemetry record the correlator reads: the arrival stamp, the media position and the gpu total. */
  datatype Frame = Frame(arrival: nat, media: int, gpu: nat)

  /** A 64 bit unsigned value reinterpreted as a signed one. */
  function ToInt64(u: int): int {
    if u < TWO63 then u else u - TWO64
  }

  /** A word read as a signed one is the number of that range that differs from it by a multiple of 2^64. */
  lemma ToInt64Wraps(u: U64)
    ensures -TWO63 <= ToInt64(u) < TWO63 && (u - ToInt64(u)) % TWO64 == 0
  {
  }

  /** The stamp that reads as this key; below 2^63 it is the key itself. */
  function StampFor(key: nat): (stamp: nat)
    ensures ToInt64(stamp) == key && (key < TWO63 ==> stamp == key)
  {
    if key < TWO63 then key else key + TWO64
  }

  /** The stamps of a monotonic clock: they never go back within a stream, and all lie below the limit. */
  predicate Stamped(all: Queues, limit: nat) {
    forall j, i, l :: 0 <= j < |all| && 0 <= i <= l < |all[j]| ==> all[j][i].arrival <= all[j][l].arrival < limit
  }

  function PairingKey(f: Frame, useMedia: bool): int {
    if useMedia && f.media > 0 then f.media else ToInt64(f.arrival)
  }

  type Queues = seq<seq<Frame>>

  predicate AllNonEmpty(qs: Queues) {
    forall j :: 0 <= j < |qs| ==> |qs[j]| > 0
  }

  function FrontKey(qs: Queues, useMedia: bool, j: nat): int
    requires j < |qs| && |qs[j]| > 0
  {
    PairingKey(qs[j][0], useMedia)
  }

  /** The first of the first n streams whose front key is smallest. */
  function Earliest(qs: Queues, useMedia: bool, n: nat): (e: nat)
    requires 1 <= n <= |qs| && AllNonEmpty(qs)
    ensures e < n
    ensures forall j :: 0 <= j < n ==> FrontKey(qs, useMedia, e) <= FrontKey(qs, useMedia, j)
    ensures forall j :: 0 <= j < e ==> FrontKey(qs, useMedia, e) < FrontKey(qs, useMedia, j)
  {
    if n == 1 then 0
    else
      var e := Earliest(qs, useMedia, n - 1);
      if FrontKey(qs, useMedia, n - 1) < FrontKey(qs, useMedia, e) then n - 1 else e
  }

  /** One of the first n streams whose front key is largest. */
  function Latest(qs: Queues, useMedia: bool, n: nat): (e: nat)
    requires 1 <= n <= |qs| && AllNonEmpty(qs)
    ensures e < n
    ensures forall j :: 0 <= j < n ==> FrontKey(qs, useMedia, j) <= FrontKey(qs, useMedia, e)
  {
    if n == 1 then 0
    else
      var e := Latest(qs, useMedia, n - 1);
      if FrontKey(qs, useMedia, n - 1) > FrontKey(qs, useMedia, e) then n - 1 else e
  }

  function Spread(qs: Queues, useMedia: bool): int
    requires |qs| >= 1 && AllNonEmpty(qs)
  {
    FrontKey(qs, useMedia, Latest(qs, useMedia, |qs|)) - FrontKey(qs, useMedia, Earliest(qs, useMedia, |qs|))
  }

  function Fronts(qs: Queues): (g: seq<Frame>)
    requires AllNonEmpty(qs)
    ensures |g| == |qs|
  {
    seq(|qs|, j requires 0 <= j < |qs| => qs[j][0])
  }

  function PopAll(qs: Queues): (r: Queues)
    requires AllNonEmpty(qs)
    ensures |r| == |qs|
  {
    seq(|qs|, j requires 0 <= j < |qs| => qs[j][1..])
  }

  function PopOne(qs: Queues, e: nat): (r: Queues)
    requires e < |qs| && |qs[e]| > 0
    ensures |r| == |qs|
  {
    qs[e := qs[e][1..]]
  }

  /** Records held over all queues. */
  function Total(qs: Queues): nat {
    if |qs| == 0 then 0 else Total(qs[..|qs| - 1]) + |qs[|qs| - 1]|
  }

  lemma {:induction false} TotalPopOne(qs: Queues, e: nat)
    requires e < |qs| && |qs[e]| > 0
    ensures Total(PopOne(qs, e)) == Total(qs) - 1
  {
    var p := PopOne(qs, e);
    var n := |qs| - 1;
    if e == n {
      assert p[..n] == qs[..n];
    } else {
      TotalPopOne(qs[..n], e);
      assert p[..n] == PopOne(qs[..n], e);
    }
  }

  lemma {:induction false} TotalPopAll(qs: Queues)
    requires AllNonEmpty(qs)
    ensures Total(PopAll(qs)) == Total(qs) - |qs|
  {
    if |qs| > 0 {
      TotalPopAll(qs[..|qs| - 1]);
      assert PopAll(qs)[..|qs| - 1] == PopAll(qs[..|qs| - 1]);
    }
  }

  /** What one run of the merge decides: the groups in order, how many records each stream lost, what stays queued. */
  datatype Outcome = Outcome(groups: seq<seq<Frame>>, unmatched: seq<nat>, rest: Queues)

  function Zeros(n: nat): (z: seq<nat>)
    ensures |z| == n && forall j :: 0 <= j < n ==> z[j] == 0
  {
    seq(n, j => 0)
  }

  function Plus(a: seq<nat>, b: seq<nat>): (c: seq<nat>)
    requires |a| == |b|
    ensures |c| == |a| && forall j :: 0 <= j < |a| ==> c[j] == a[j] + b[j]
  {
    seq(|a|, j requires 0 <= j < |a| => a[j] + b[j])
  }

  /** The merge loop: group the fronts when they are close enough, otherwise retire the earliest; stop at an empty
      queue. */
  function Merge(qs: Queues, useMedia: bool, window: int): (o: Outcome)
    requires |qs| >= 1
    ensures |o.unmatched| == |qs| && |o.rest| == |qs|
    ensures !AllNonEmpty(o.rest)
    decreases Total(qs)
  {
    if !AllNonEmpty(qs) then Outcome([], Zeros(|qs|), qs)
    else if Spread(qs, useMedia) <= window then
      TotalPopAll(qs);
      var o := Merge(PopAll(qs), useMedia, window);
      o.(groups := [Fronts(qs)] + o.groups)
    else
      var e := Earliest(qs, useMedia, |qs|);
      TotalPopOne(qs, e);
      var o := Merge(PopOne(qs, e), useMedia, window);
      o.(unmatched := o.unmatched[e := o.unmatched[e] + 1])
  }
}
