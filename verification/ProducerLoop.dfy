/** The producer's event loop as it runs: variables updated turn by turn. */
module ProducerLoop {
  import opened Producer

  class EventLoop {
    var outstanding: int
    var nextPoll: nat
    var nextSize: nat
    var renderWidth: int
    var lastPosition: int
    var epoch: int
    var mediaTime: int
    var loops: nat
    var ticks: nat
    var parseErrors: nat
    var pollErrors: nat
    var seqNumber: nat
    var records: seq<int>

    constructor ()
      ensures Valid() && State() == START.loop
    {
      outstanding, nextPoll, nextSize, renderWidth := 0, 0, 0, 0;
      lastPosition, epoch, mediaTime, loops := 0, 0, 0, 0;
      ticks, parseErrors, pollErrors, seqNumber, records := 0, 0, 0, 0, [];
    }

    /** The sequence number of the latest record is the number of records made. */
    predicate Valid()
      reads this
    {
      seqNumber == |records|
    }

    function State(): Loop
      reads this
    {
      Loop(outstanding, nextPoll, nextSize, renderWidth, lastPosition, epoch, mediaTime, loops, ticks, parseErrors,
           pollErrors, records)
    }

    /** A playback-time event. sent is whether the poll, if one is tried, reaches the socket. */
    method FrameTick(position: real, sent: bool)
      requires Valid()
      modifies this
      ensures Valid() && State() == OnTick(old(State()), position, sent)
    {
      if position >= 0.0 {
        var positionNs := (position * 1_000_000_000.0).Floor;
        if positionNs + BACKSTEP < lastPosition {
          epoch := epoch + lastPosition;
          loops := loops + 1;
        }
        lastPosition := positionNs;
        mediaTime := epoch + positionNs;
      }
      ticks := ticks + 1;
      if outstanding < MAX_OUTSTANDING && sent {
        nextPoll := nextPoll + 1;
        outstanding := outstanding + 1;
      }
    }

    /** The answer to a size query, before the loop or in it. */
    method TakeSize(answer: Answer)
      requires Valid()
      modifies this
      ensures Valid() && State() == OnQuery(old(State()), answer)
    {
      if answer.Dimensions? && (nextSize == 0 || (answer.width > 0 && answer.height > 0)) {
        renderWidth := answer.width;
      }
      nextSize := nextSize + 1;
    }

    method TakeReply(id: int, outcome: Outcome)
      requires Valid()
      modifies this
      ensures Valid() && State() == OnReply(old(State()), id, outcome)
    {
      if id < POLL_BASE {
        return;
      }
      if outstanding > 0 {
        outstanding := outstanding - 1;
      }
      if outcome.Failed? {
        pollErrors := pollErrors + 1;
        return;
      }
      if outcome.Empty? {
        return;
      }
      seqNumber := seqNumber + 1;
      records := records + [mediaTime];
    }

    method Run(evs: seq<Event>)
      requires Valid() && State() == START.loop
      modifies this
      ensures Valid() && State() == After(evs).loop
    {
      assert evs[..0] == [];
      for i := 0 to |evs|
        invariant Valid() && State() == After(evs[..i]).loop
      {
        assert evs[..i + 1][..i] == evs[..i];
        match evs[i] {
          case Tick(position, sent) => FrameTick(position, sent);
          case Reply(to, outcome) => TakeReply(IdOf(to), outcome);
          case Garbled(_) => parseErrors := parseErrors + 1;
          case Noise =>
          case Query(_, answer) => TakeSize(answer);
        }
      }
      assert evs[..|evs|] == evs;
    }
  }
}
