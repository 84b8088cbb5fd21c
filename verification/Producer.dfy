/** The producer's event loop: poll credits, the loop epoch of the media key, and record numbering. */
module Producer {

  const POLL_BASE: int := 1000
  const SIZE_BASE: int := 150
  const MAX_OUTSTANDING: int := 4
  const BACKSTEP: int := 1_000_000_000
  /** How many size queries fit below the poll ids. */
  const SIZE_ROOM: nat := 850

  /** A request to the player, by what it asked: the n-th pass poll or the n-th size query. */
  datatype Request = Poll(n: nat) | Size(n: nat)

  function IdOf(r: Request): int {
    match r
    case Poll(n) => POLL_BASE + n
    case Size(n) => SIZE_BASE + n
  }

  /** What a reply to a poll holds: an error, no passes to use, or a frame's passes. */
  datatype Outcome = Failed | Empty | Passes

  /** What a size query comes back with before its deadline. */
  datatype Answer = NoAnswer | NoDimensions | Dimensions(width: int, height: int)

  /** One turn of the loop, or one size query. Tick is a playback-time event, and sent says whether the poll, if one
      is tried, reaches the socket. Reply is a parsed reply and Garbled one that does not parse. Noise is anything
      else: timeouts, other events, acknowledgements. Query drops the skipped replies while it waits for its own
      answer. */
  datatype Event =
    | Tick(position: real, sent: bool)
    | Reply(to: Request, outcome: Outcome)
    | Garbled(to: Request)
    | Noise
    | Query(skipped: seq<Request>, answer: Answer)

  /** The variables of the loop. records holds the media key of every record made, in order of seq. */
  datatype Loop = Loop(
    outstanding: int, nextPoll: nat, nextSize: nat, renderWidth: int,
    lastPosition: int, epoch: int, mediaTime: int, loops: nat,
    ticks: nat, parseErrors: nat, pollErrors: nat, records: seq<int>)

  /** The loop and what the player still owes it. lost counts poll replies that arrived and were not counted. */
  datatype World = World(loop: Loop, owed: set<Request>, lost: nat)

  const START: World := World(Loop(0, 0, 0, 0, 0, 0, 0, 0, 0, 0, 0, []), {}, 0)

  // --- what the loop does ---

  function Nanos(position: real): int {
    (position * 1_000_000_000.0).Floor
  }

  function Advance(l: Loop, position: real): Loop {
    if position < 0.0 then l
    else
      var ns := Nanos(position);
      var looped := ns + BACKSTEP < l.lastPosition;
      var epoch := if looped then l.epoch + l.lastPosition else l.epoch;
      l.(epoch := epoch, loops := l.loops + (if looped then 1 else 0), lastPosition := ns, mediaTime := epoch + ns)
  }

  predicate Asks(l: Loop, sent: bool) {
    l.outstanding < MAX_OUTSTANDING && sent
  }

  function OnTick(l: Loop, position: real, sent: bool): Loop {
    var m := Advance(l, position);
    var asks := Asks(l, sent);
    m.(ticks := m.ticks + 1,
       nextPoll := m.nextPoll + (if asks then 1 else 0),
       outstanding := m.outstanding + (if asks then 1 else 0))
  }

  function OnReply(l: Loop, id: int, outcome: Outcome): Loop {
    if id < POLL_BASE then l
    else
      var m := l.(outstanding := if l.outstanding > 0 then l.outstanding - 1 else l.outstanding);
      match outcome
      case Failed => m.(pollErrors := m.pollErrors + 1)
      case Empty => m
      case Passes => m.(records := m.records + [m.mediaTime])
  }

  /** The query before the loop takes any width it is told; those in the loop only a size that can be rendered to. */
  function OnQuery(l: Loop, answer: Answer): Loop {
    var takes := answer.Dimensions? && (l.nextSize == 0 || (answer.width > 0 && answer.height > 0));
    l.(nextSize := l.nextSize + 1, renderWidth := if takes then answer.width else l.renderWidth)
  }

  function LoopStep(l: Loop, ev: Event): Loop {
    match ev
    case Tick(position, sent) => OnTick(l, position, sent)
    case Reply(to, outcome) => OnReply(l, IdOf(to), outcome)
    case Garbled(_) => l.(parseErrors := l.parseErrors + 1)
    case Noise => l
    case Query(_, answer) => OnQuery(l, answer)
  }

  // --- and what the player sees ---

  function Polls(rs: set<Request>): set<Request> {
    set r | r in rs && r.Poll?
  }

  function AsSet(rs: seq<Request>): set<Request> {
    set r | r in rs
  }

  predicate Distinct(rs: seq<Request>) {
    forall i, j :: 0 <= i < j < |rs| ==> rs[i] != rs[j]
  }

  /** A size query comes first, and later ones only once a width is known. The player answers each request at most once,
      and a query drops replies until its own arrives. */
  predicate Legal(w: World, ev: Event) {
    && (ev.Query? <== w.loop.nextSize == 0)
    && match ev
       case Tick(_, _) => true
       case Noise => true
       case Reply(to, _) => to in w.owed
       case Garbled(to) => to in w.owed
       case Query(skipped, _) =>
         && (w.loop.nextSize == 0 || w.loop.renderWidth > 0)
         && Distinct(skipped)
         && forall r :: r in skipped ==> r in w.owed && IdOf(r) != SIZE_BASE + w.loop.nextSize
  }

  function PlayerStep(w: World, ev: Event): World {
    match ev
    case Tick(_, sent) => if Asks(w.loop, sent) then w.(owed := w.owed + {Poll(w.loop.nextPoll)}) else w
    case Noise => w
    case Reply(to, _) => w.(owed := w.owed - {to})
    case Garbled(to) => w.(owed := w.owed - {to}, lost := w.lost + if to.Poll? then 1 else 0)
    case Query(skipped, answer) =>
      var own := if answer.NoAnswer? then {Size(w.loop.nextSize)} else {};
      w.(owed := w.owed - AsSet(skipped) + own, lost := w.lost + |Polls(AsSet(skipped))|)
  }

  function Step(w: World, ev: Event): World {
    PlayerStep(w, ev).(loop := LoopStep(w.loop, ev))
  }

  function After(evs: seq<Event>): World {
    if evs == [] then START else Step(After(evs[..|evs| - 1]), evs[|evs| - 1])
  }

  predicate LegalRun(evs: seq<Event>) {
    evs == [] || (LegalRun(evs[..|evs| - 1]) && Legal(After(evs[..|evs| - 1]), evs[|evs| - 1]))
  }

  lemma LegalOneMore(a: seq<Event>, x: Event)
    requires LegalRun(a) && Legal(After(a), x)
    ensures LegalRun(a + [x]) && After(a + [x]) == Step(After(a), x)
  {
    assert (a + [x])[..|a|] == a;
  }

  // --- credits ---

  /** Every credit taken is a poll the player still owes, or a poll reply that was lost. */
  predicate CreditsBalance(w: World) {
    w.loop.outstanding == |Polls(w.owed)| + w.lost
  }

  predicate KnownRequests(w: World) {
    forall r :: r in w.owed ==> if r.Poll? then r.n < w.loop.nextPoll else r.n < w.loop.nextSize
  }

  lemma PollsAdd(rs: set<Request>, n: nat)
    requires Poll(n) !in rs
    ensures |Polls(rs + {Poll(n)})| == |Polls(rs)| + 1
  {
    assert Polls(rs + {Poll(n)}) == Polls(rs) + {Poll(n)};
  }

  lemma PollsRemove(rs: set<Request>, gone: set<Request>)
    requires gone <= rs
    ensures |Polls(rs - gone)| == |Polls(rs)| - |Polls(gone)|
  {
    assert Polls(rs) == Polls(rs - gone) + Polls(gone);
    assert Polls(rs - gone) !! Polls(gone);
  }

  lemma PollsAddSize(rs: set<Request>, n: nat)
    ensures Polls(rs + {Size(n)}) == Polls(rs)
  {
  }

  lemma PollsOfOne(r: Request)
    ensures |Polls({r})| == if r.Poll? then 1 else 0
  {
    assert Polls({r}) == if r.Poll? then {r} else {};
  }

  lemma AskKeepsCredits(w: World, ev: Event)
    requires ev.Tick? && KnownRequests(w) && CreditsBalance(w)
    ensures KnownRequests(Step(w, ev)) && CreditsBalance(Step(w, ev))
  {
    PollsAdd(w.owed, w.loop.nextPoll);
  }

  lemma AnswerKeepsCredits(w: World, ev: Event)
    requires (ev.Reply? || ev.Garbled?) && ev.to in w.owed && KnownRequests(w) && CreditsBalance(w) &&
             w.loop.nextSize <= SIZE_ROOM
    ensures KnownRequests(Step(w, ev)) && CreditsBalance(Step(w, ev))
  {
    PollsRemove(w.owed, {ev.to});
    PollsOfOne(ev.to);
  }

  lemma QueryKeepsCredits(w: World, ev: Event)
    requires ev.Query? && KnownRequests(w) && CreditsBalance(w) && Legal(w, ev)
    ensures KnownRequests(Step(w, ev)) && CreditsBalance(Step(w, ev))
  {
    var rest := w.owed - AsSet(ev.skipped);
    PollsRemove(w.owed, AsSet(ev.skipped));
    PollsAddSize(rest, w.loop.nextSize);
    assert rest + {} == rest;
  }

  lemma StepKeepsCredits(w: World, ev: Event)
    requires KnownRequests(w) && CreditsBalance(w) && Legal(w, ev) && w.loop.nextSize <= SIZE_ROOM
    ensures KnownRequests(Step(w, ev)) && CreditsBalance(Step(w, ev))
  {
    match ev
    case Tick(_, _) => AskKeepsCredits(w, ev);
    case Noise =>
    case Reply(_, _) => AnswerKeepsCredits(w, ev);
    case Garbled(_) => AnswerKeepsCredits(w, ev);
    case Query(_, _) => QueryKeepsCredits(w, ev);
  }

  lemma {:induction false} CountsGrow(evs: seq<Event>, i: nat)
    requires i <= |evs|
    ensures After(evs[..i]).loop.nextSize <= After(evs).loop.nextSize
    ensures After(evs[..i]).lost <= After(evs).lost
    decreases |evs|
  {
    if i < |evs| {
      CountsGrow(evs[..|evs| - 1], i);
      assert evs[..|evs| - 1][..i] == evs[..i];
    } else {
      assert evs[..i] == evs;
    }
  }

  /** On every run with at most 850 size queries: each credit is a poll in flight or a lost reply,
      and at most four polls are in flight. */
  lemma {:induction false} CreditLaw(evs: seq<Event>)
    requires LegalRun(evs) && After(evs).loop.nextSize <= SIZE_ROOM
    ensures KnownRequests(After(evs)) && CreditsBalance(After(evs))
    ensures After(evs).loop.outstanding <= MAX_OUTSTANDING
    ensures |Polls(After(evs).owed)| + After(evs).lost <= MAX_OUTSTANDING
  {
    if evs == [] {
      assert Polls(START.owed) == {};
    } else {
      CountsGrow(evs, |evs| - 1);
      CreditLaw(evs[..|evs| - 1]);
      StepKeepsCredits(After(evs[..|evs| - 1]), evs[|evs| - 1]);
    }
  }

  /** A late answer to a size query whose id has reached the poll ids takes back a credit that no poll gave. */
  function LateAnswer(n: nat): seq<Event>
    requires n > 0
  {
    Queries(n) + [Tick(0.0, true), Reply(Size(n - 1), Empty)]
  }

  /** Only the first query is answered. */
  function Queries(n: nat): (evs: seq<Event>)
    ensures |evs| == n
  {
    seq(n, i => Query([], if i == 0 then Dimensions(1, 1) else NoAnswer))
  }

  lemma UnansweredQuery(w: World)
    requires w.loop.nextSize == 0 || w.loop.renderWidth > 0
    ensures var first := w.loop.nextSize == 0;
            var ev := Query([], if first then Dimensions(1, 1) else NoAnswer);
            Legal(w, ev) && Step(w, ev).loop ==
            w.loop.(nextSize := w.loop.nextSize + 1, renderWidth := if first then 1 else w.loop.renderWidth) &&
            Step(w, ev).lost == w.lost && Polls(Step(w, ev).owed) == Polls(w.owed) &&
            (!first ==> Size(w.loop.nextSize) in Step(w, ev).owed)
  {
    assert Polls(AsSet([])) == {};
  }

  /** After n size queries and nothing else. */
  predicate HasQueried(w: World, n: nat) {
    && w.loop == START.loop.(nextSize := n, renderWidth := if n > 0 then 1 else 0)
    && w.lost == 0 && Polls(w.owed) == {}
    && (n > 1 ==> Size(n - 1) in w.owed)
  }

  lemma OneMoreQuery(w: World, n: nat)
    requires HasQueried(w, n)
    ensures var ev := Query([], if n == 0 then Dimensions(1, 1) else NoAnswer);
            Legal(w, ev) && HasQueried(Step(w, ev), n + 1)
  {
    UnansweredQuery(w);
  }

  lemma QueriesSnoc(n: nat)
    ensures Queries(n + 1) == Queries(n) + [Query([], if n == 0 then Dimensions(1, 1) else NoAnswer)]
  {
  }

  lemma {:induction false} QueriesOnly(n: nat)
    ensures LegalRun(Queries(n)) && HasQueried(After(Queries(n)), n)
  {
    if n == 0 {
      assert Queries(0) == [] && Polls({}) == {};
    } else {
      QueriesOnly(n - 1);
      QueriesSnoc(n - 1);
      OneMoreQuery(After(Queries(n - 1)), n - 1);
      LegalOneMore(Queries(n - 1), Query([], if n - 1 == 0 then Dimensions(1, 1) else NoAnswer));
    }
  }

  lemma LateAnswerSteps(w: World, n: nat)
    requires n > SIZE_ROOM && Size(n - 1) in w.owed && Polls(w.owed) == {} && w.lost == 0
    requires w.loop == START.loop.(nextSize := n, renderWidth := 1)
    ensures var v := Step(w, Tick(0.0, true));
            Legal(w, Tick(0.0, true)) && Legal(v, Reply(Size(n - 1), Empty)) &&
            var u := Step(v, Reply(Size(n - 1), Empty)); u.loop.nextSize == n && !CreditsBalance(u)
  {
    var v := Step(w, Tick(0.0, true));
    assert forall r :: r in w.owed && r.Poll? ==> r in Polls(w.owed);
    PollsAdd(w.owed, 0);
    PollsRemove(v.owed, {Size(n - 1)});
    PollsOfOne(Size(n - 1));
  }

  lemma LegalTwoMore(a: seq<Event>, x: Event, y: Event)
    requires LegalRun(a) && Legal(After(a), x) && Legal(Step(After(a), x), y)
    ensures LegalRun(a + [x, y]) && After(a + [x, y]) == Step(Step(After(a), x), y)
  {
    LegalOneMore(a, x);
    LegalOneMore(a + [x], y);
    assert a + [x] + [y] == a + [x, y];
  }

  lemma LateAnswerBreaks(n: nat)
    requires n > SIZE_ROOM
    ensures LegalRun(LateAnswer(n)) && After(LateAnswer(n)).loop.nextSize == n && !CreditsBalance(After(LateAnswer(n)))
  {
    QueriesOnly(n);
    LateAnswerSteps(After(Queries(n)), n);
    LegalTwoMore(Queries(n), Tick(0.0, true), Reply(Size(n - 1), Empty));
  }

  /** The credit law can be relied on for exactly as many size queries as fit below the poll ids. */
  lemma CreditLawIff(n: nat)
    ensures n <= SIZE_ROOM <==>
            forall evs :: LegalRun(evs) && After(evs).loop.nextSize <= n ==> CreditsBalance(After(evs))
  {
    if n <= SIZE_ROOM {
      forall evs | LegalRun(evs) && After(evs).loop.nextSize <= n
        ensures CreditsBalance(After(evs))
      {
        CreditLaw(evs);
      }
    } else {
      LateAnswerBreaks(n);
    }
  }

  /** Once four poll replies are lost no poll is ever asked again, so no record is made again either. */
  lemma {:induction false} FourLossesStopPolling(evs: seq<Event>, i: nat)
    requires LegalRun(evs) && After(evs).loop.nextSize <= SIZE_ROOM
    requires i <= |evs| && After(evs[..i]).lost == MAX_OUTSTANDING
    ensures After(evs).loop.nextPoll == After(evs[..i]).loop.nextPoll
    ensures After(evs).loop.records == After(evs[..i]).loop.records
    ensures After(evs).lost == MAX_OUTSTANDING
    decreases |evs|
  {
    if i == |evs| {
      assert evs[..i] == evs;
    } else {
      var before := evs[..|evs| - 1];
      assert before[..i] == evs[..i];
      CountsGrow(evs, |before|);
      FourLossesStopPolling(before, i);
      CreditLaw(before);
      CreditLaw(evs);
      CountsGrow(evs, i);
      NothingOwed(After(before), evs[|evs| - 1]);
    }
  }

  lemma NothingOwed(w: World, ev: Event)
    requires Legal(w, ev) && KnownRequests(w) && CreditsBalance(w) && Step(w, ev).loop.nextSize <= SIZE_ROOM
    requires w.lost == MAX_OUTSTANDING && w.loop.outstanding <= MAX_OUTSTANDING
    ensures Step(w, ev).loop.nextPoll == w.loop.nextPoll && Step(w, ev).loop.records == w.loop.records
  {
    assert Polls(w.owed) == {};
    assert forall r :: r in w.owed && r.Poll? ==> r in Polls(w.owed);
  }

  // --- whether polling can go on ---

  /** The size query before the loop, then m polls asked. */
  function Asked(m: nat): seq<Event> {
    if m == 0 then [Query([], Dimensions(1, 1))] else Asked(m - 1) + [Tick(0.0, true)]
  }

  function PollsUpTo(m: nat): (rs: seq<Request>)
    ensures |rs| == m && forall i :: 0 <= i < m ==> rs[i] == Poll(i)
  {
    seq(m, i requires 0 <= i => Poll(i))
  }

  /** m polls are out, none is lost, and a width is known. */
  predicate HasAsked(w: World, m: nat) {
    && w.owed == AsSet(PollsUpTo(m)) && w.lost == 0
    && w.loop.outstanding == m == w.loop.nextPoll && w.loop.nextSize == 1 && w.loop.renderWidth == 1
  }

  lemma FirstQuery(w: World)
    requires w == START
    ensures var ev := Query([], Dimensions(1, 1)); Legal(w, ev) && HasAsked(Step(w, ev), 0)
  {
    UnansweredQuery(w);
    assert AsSet([]) == {};
  }

  lemma AskOne(w: World, m: nat)
    requires m < MAX_OUTSTANDING && HasAsked(w, m)
    ensures Legal(w, Tick(0.0, true)) && HasAsked(Step(w, Tick(0.0, true)), m + 1)
  {
    assert PollsUpTo(m + 1) == PollsUpTo(m) + [Poll(m)];
    assert AsSet(PollsUpTo(m + 1)) == AsSet(PollsUpTo(m)) + {Poll(m)};
  }

  lemma {:induction false} AskedOwes(m: nat)
    requires m <= MAX_OUTSTANDING
    ensures LegalRun(Asked(m)) && HasAsked(After(Asked(m)), m)
  {
    if m == 0 {
      FirstQuery(START);
      LegalOneMore([], Asked(0)[0]);
      assert [] + [Asked(0)[0]] == Asked(0);
    } else {
      AskedOwes(m - 1);
      AskOne(After(Asked(m - 1)), m - 1);
      LegalOneMore(Asked(m - 1), Tick(0.0, true));
    }
  }

  lemma {:induction false} CountPolls(m: nat)
    ensures |Polls(AsSet(PollsUpTo(m)))| == m
  {
    if m == 0 {
      assert Polls(AsSet(PollsUpTo(0))) == {};
    } else {
      CountPolls(m - 1);
      assert PollsUpTo(m) == PollsUpTo(m - 1) + [Poll(m - 1)];
      assert AsSet(PollsUpTo(m)) == AsSet(PollsUpTo(m - 1)) + {Poll(m - 1)};
      PollsAdd(AsSet(PollsUpTo(m - 1)), m - 1);
    }
  }

  /** Four polls are asked, and one size query reads past all four replies. */
  function FourLost(): seq<Event> {
    Asked(4) + [Query(PollsUpTo(4), Dimensions(1, 1))]
  }

  lemma QueryLosesAll(w: World)
    requires HasAsked(w, 4)
    ensures var ev := Query(PollsUpTo(4), Dimensions(1, 1));
            Legal(w, ev) && Step(w, ev).lost == 4 && Step(w, ev).loop.nextSize == 2
  {
    CountPolls(4);
  }

  /** Four losses do happen. */
  lemma FourCanBeLost()
    ensures LegalRun(FourLost()) && After(FourLost()).lost == MAX_OUTSTANDING && After(FourLost()).loop.nextSize == 2
  {
    AskedOwes(4);
    QueryLosesAll(After(Asked(4)));
    LegalOneMore(Asked(4), Query(PollsUpTo(4), Dimensions(1, 1)));
  }

  /** A legal way on from a run that asks another poll, without running out of ids for size queries. */
  ghost predicate AsksAgain(evs: seq<Event>, more: seq<Event>) {
    && LegalRun(evs + more) && After(evs + more).loop.nextSize <= SIZE_ROOM
    && After(evs + more).loop.nextPoll > After(evs).loop.nextPoll
  }

  lemma FreeCreditAsks(evs: seq<Event>)
    requires LegalRun(evs) && 0 < After(evs).loop.nextSize <= SIZE_ROOM && After(evs).loop.outstanding < MAX_OUTSTANDING
    ensures AsksAgain(evs, [Tick(-1.0, true)])
  {
    LegalOneMore(evs, Tick(-1.0, true));
  }

  lemma AnswerThenAsk(evs: seq<Event>, n: nat)
    requires LegalRun(evs) && 0 < After(evs).loop.nextSize <= SIZE_ROOM && Poll(n) in After(evs).owed
    requires After(evs).loop.outstanding <= MAX_OUTSTANDING
    ensures AsksAgain(evs, [Reply(Poll(n), Empty), Tick(-1.0, true)])
  {
    var reply := Reply(Poll(n), Empty);
    LegalTwoMore(evs, reply, Tick(-1.0, true));
  }

  lemma SomePollOwed(w: World)
    requires |Polls(w.owed)| > 0
    ensures exists n: nat :: Poll(n) in w.owed
  {
    var r :| r in Polls(w.owed);
    assert r == Poll(r.n);
  }

  /** Another poll can still be asked exactly while fewer than four poll replies have been lost. */
  lemma CanAskIff(evs: seq<Event>)
    requires LegalRun(evs) && 0 < After(evs).loop.nextSize <= SIZE_ROOM
    ensures After(evs).lost < MAX_OUTSTANDING <==> exists more :: AsksAgain(evs, more)
  {
    var w := After(evs);
    CreditLaw(evs);
    if w.lost < MAX_OUTSTANDING {
      if w.loop.outstanding < MAX_OUTSTANDING {
        FreeCreditAsks(evs);
      } else {
        SomePollOwed(w);
        var n: nat :| Poll(n) in w.owed;
        AnswerThenAsk(evs, n);
      }
    } else {
      forall more | LegalRun(evs + more) && After(evs + more).loop.nextSize <= SIZE_ROOM
        ensures After(evs + more).loop.nextPoll == w.loop.nextPoll
      {
        assert (evs + more)[..|evs|] == evs;
        FourLossesStopPolling(evs + more, |evs|);
      }
    }
  }

  // --- the media key ---

  /** A position the loop can follow: no step back, or one large enough to be taken for a restart. */
  predicate Followable(l: Loop, ev: Event) {
    ev.Tick? && ev.position >= 0.0 ==> Nanos(ev.position) >= l.lastPosition ||
                                       Nanos(ev.position) + BACKSTEP < l.lastPosition
  }

  predicate Consistent(l: Loop) {
    l.mediaTime == l.epoch + l.lastPosition && l.lastPosition >= 0
  }

  /** The key never moves back in a step exactly when the position is followable. */
  lemma KeyMovesForwardIff(l: Loop, ev: Event)
    requires Consistent(l)
    ensures Consistent(LoopStep(l, ev))
    ensures LoopStep(l, ev).mediaTime >= l.mediaTime <==> Followable(l, ev)
  {
    if ev.Tick? && ev.position >= 0.0 {
      assert ev.position * 1_000_000_000.0 >= 0.0;
    }
  }

  lemma {:induction false} AlwaysConsistent(evs: seq<Event>)
    ensures Consistent(After(evs).loop)
  {
    if evs != [] {
      AlwaysConsistent(evs[..|evs| - 1]);
      KeyMovesForwardIff(After(evs[..|evs| - 1]).loop, evs[|evs| - 1]);
    }
  }

  predicate AllFollowable(evs: seq<Event>) {
    forall i :: 0 <= i < |evs| ==> Followable(After(evs[..i]).loop, evs[i])
  }

  /** The media key before the run and after each of its events. */
  function Keys(evs: seq<Event>): (keys: seq<int>)
    ensures |keys| == |evs| + 1
  {
    seq(|evs| + 1, i requires 0 <= i <= |evs| => After(evs[..i]).loop.mediaTime)
  }

  predicate Sorted(keys: seq<int>) {
    forall i, j :: 0 <= i <= j < |keys| ==> keys[i] <= keys[j]
  }

  predicate Climbs(keys: seq<int>) {
    forall i :: 0 <= i < |keys| - 1 ==> keys[i] <= keys[i + 1]
  }

  lemma {:induction false} ClimbReaches(keys: seq<int>, i: nat, j: nat)
    requires Climbs(keys) && i <= j < |keys|
    ensures keys[i] <= keys[j]
    decreases j
  {
    if i < j {
      ClimbReaches(keys, i, j - 1);
    }
  }

  lemma ClimbsIsSorted(keys: seq<int>)
    requires Climbs(keys)
    ensures Sorted(keys)
  {
    forall i, j | 0 <= i <= j < |keys|
      ensures keys[i] <= keys[j]
    {
      ClimbReaches(keys, i, j);
    }
  }

  lemma KeyAfter(evs: seq<Event>, i: nat)
    requires i < |evs|
    ensures Keys(evs)[i] <= Keys(evs)[i + 1] <==> Followable(After(evs[..i]).loop, evs[i])
  {
    AlwaysConsistent(evs[..i]);
    KeyMovesForwardIff(After(evs[..i]).loop, evs[i]);
    assert evs[..i + 1][..i] == evs[..i];
  }

  /** Over a whole run the key never moves back exactly when every position is followable. */
  lemma KeysSortedIff(evs: seq<Event>)
    ensures Sorted(Keys(evs)) <==> AllFollowable(evs)
  {
    var keys := Keys(evs);
    if Sorted(keys) {
      forall i | 0 <= i < |evs|
        ensures Followable(After(evs[..i]).loop, evs[i])
      {
        KeyAfter(evs, i);
      }
    }
    if AllFollowable(evs) {
      forall i | 0 <= i < |keys| - 1
        ensures keys[i] <= keys[i + 1]
      {
        KeyAfter(evs, i);
      }
      ClimbsIsSorted(keys);
    }
  }

  predicate RecordsSorted(l: Loop) {
    Sorted(l.records) && forall i :: 0 <= i < |l.records| ==> l.records[i] <= l.mediaTime
  }

  lemma RecordsStaySorted(l: Loop, ev: Event)
    requires RecordsSorted(l) && l.mediaTime <= LoopStep(l, ev).mediaTime
    ensures RecordsSorted(LoopStep(l, ev))
  {
  }

  /** The keys of the records come out sorted, which is what the correlator asks of a stream. */
  lemma {:induction false} RecordKeysSorted(evs: seq<Event>)
    requires AllFollowable(evs)
    ensures RecordsSorted(After(evs).loop)
    decreases |evs|
  {
    if evs != [] {
      var n := |evs| - 1;
      var before := evs[..n];
      assert forall i :: 0 <= i <= n ==> before[..i] == evs[..i];
      RecordKeysSorted(before);
      AlwaysConsistent(before);
      KeyMovesForwardIff(After(before).loop, evs[n]);
      RecordsStaySorted(After(before).loop, evs[n]);
    }
  }
}
