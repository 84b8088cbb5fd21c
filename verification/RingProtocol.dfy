/** The shared memory ring as two processes taking small steps over acquire/release memory.

    Memory. The producer is the only writer of the slots, so their plain stores form one list in its
    program order (log). Head and tail are lists of release stores, oldest first. An acquire load may
    return any store of the list that is not older than the newest one that side has already seen, and
    brings along the view of that store: how many plain stores came before it. A plain load may return
    any store to its cell that is not overwritten inside the reader's view, so also a stale one, and
    also one that is being made while the reader runs.

    The history next to the machine counts without wrapping and keeps the records. No step reads it. */
module RingProtocol {
  import opened Bits

  const RECORD_WORDS: nat := 24

  type Record = r: seq<U64> | |r| == RECORD_WORDS witness seq(RECORD_WORDS, i => 0)

  /** RingMapping::Create and Open refuse every other slot count. */
  type Capacity = c: U32 | c > 0 && IsPowerOfTwo(c) witness 1

  datatype Store = Store(slot: nat, word: nat, value: U64)

  datatype HeadStore = HeadStore(value: U64, view: nat)

  datatype DoneStore = NotDone | Done(newestHead: nat, view: nat)

  datatype ProducerAt =
    | Idle
    | TestingFull(rec: Record)
    | RetestingFull(rec: Record)
    | Writing(rec: Record, words: nat)
    | Finished

  datatype ConsumerAt =
    | Resting
    | TestingEmpty(max: nat)
    | RetestingEmpty(max: nat)
    | Copying(available: nat, out: seq<Record>, words: seq<U64>)
    | CountingPending
    | Exited

  datatype Machine = Machine(
    capacity: Capacity,
    log: seq<Store>,
    heads: seq<HeadStore>,
    tails: seq<U64>,
    done: DoneStore,
    dropped: nat,
    // private to the producer
    producer: ProducerAt,
    cachedTail: U64,
    seenTail: nat,
    // private to the consumer
    consumer: ConsumerAt,
    cachedHead: U64,
    seenHead: nat,
    view: nat)

  datatype Step =
    | Offer(rec: Record)        // TryPush is called
    | TestFull                  // against the cached tail
    | ReloadTail(at: nat)       // acquire load of tail, then the second test
    | WriteWord                 // one word of the record copy
    | PublishHead               // release store of head
    | MarkDone
    | Ask(max: nat)             // PopBatch(max) is called, TryPop is PopBatch(1)
    | TestEmpty                 // against the cached head
    | ReloadHead(at: nat)       // acquire load of head, then the second test
    | ReadWord(from: int)       // one word of the record copy, returned by that store, or by untouched memory for -1
    | PublishTail               // release store of tail
    | LoadDone(seen: bool)      // acquire load of the done flag
    | LoadPending(at: nat)      // acquire load of head in PendingCount

  function Mask(m: Machine): nat {
    m.capacity - 1
  }

  function Head(m: Machine): U64
    requires |m.heads| > 0
  {
    m.heads[|m.heads| - 1].value
  }

  function Tail(m: Machine): U64
    requires |m.tails| > 0
  {
    m.tails[|m.tails| - 1]
  }

  predicate LooksFull(m: Machine, tail: U64)
    requires |m.heads| > 0
  {
    Sub64(Head(m), tail) >= Mask(m) + 1
  }

  predicate To(s: Store, slot: nat, word: nat) {
    s.slot == slot && s.word == word
  }

  /** Which stores a plain load of a cell may return. */
  predicate Readable(m: Machine, slot: nat, word: nat, at: int) {
    && -1 <= at < |m.log|
    && (at >= 0 ==> To(m.log[at], slot, word))
    && forall k :: at < k < m.view && k < |m.log| ==> !To(m.log[k], slot, word)
  }

  function ReadSlot(m: Machine): nat
    requires |m.tails| > 0 && m.consumer.Copying?
  {
    BitAnd(Add64(Tail(m), |m.consumer.out| % TWO64), Mask(m))
  }

  predicate Enabled(m: Machine, step: Step) {
    && |m.heads| > 0 && |m.tails| > 0
    && match step
       case Offer(rec) => m.producer.Idle?
       case TestFull => m.producer.TestingFull?
       case ReloadTail(at) => m.producer.RetestingFull? && m.seenTail <= at < |m.tails|
       case WriteWord => m.producer.Writing? && m.producer.words < RECORD_WORDS
       case PublishHead => m.producer.Writing? && m.producer.words == RECORD_WORDS
       case MarkDone => m.producer.Idle?
       case Ask(max) => m.consumer.Resting?
       case TestEmpty => m.consumer.TestingEmpty?
       case ReloadHead(at) => m.consumer.RetestingEmpty? && m.seenHead <= at < |m.heads|
       case ReadWord(from) =>
         m.consumer.Copying? && |m.consumer.out| < m.consumer.available
         && Readable(m, ReadSlot(m), |m.consumer.words|, from)
       case PublishTail => m.consumer.Copying? && |m.consumer.out| == m.consumer.available
       case LoadDone(seen) => m.consumer.Resting? && (seen ==> m.done.Done?)
       case LoadPending(at) => m.consumer.CountingPending? && m.seenHead <= at < |m.heads|
  }

  function Max(a: nat, b: nat): nat {
    if a >= b then a else b
  }

  function StartCopy(m: Machine, head: U64, max: nat): ConsumerAt
    requires |m.tails| > 0
  {
    var available := Sub64(head, Tail(m));
    Copying(if available > max then max else available, [], [])
  }

  function Seeing(m: Machine, at: nat): Machine
    requires at < |m.heads|
  {
    m.(seenHead := at, view := Max(m.view, m.heads[at].view))
  }

  function Do(m: Machine, step: Step): Machine
    requires Enabled(m, step)
  {
    match step
    case Offer(rec) =>
      m.(producer := TestingFull(rec))
    case TestFull =>
      var rec := m.producer.rec;
      m.(producer := if LooksFull(m, m.cachedTail) then RetestingFull(rec) else Writing(rec, 0))
    case ReloadTail(at) =>
      var rec := m.producer.rec;
      var n := m.(cachedTail := m.tails[at], seenTail := at);
      if LooksFull(m, m.tails[at]) then n.(producer := Idle, dropped := m.dropped + 1)
      else n.(producer := Writing(rec, 0))
    case WriteWord =>
      var w := m.producer.words;
      m.(log := m.log + [Store(BitAnd(Head(m), Mask(m)), w, m.producer.rec[w])],
         producer := Writing(m.producer.rec, w + 1))
    case PublishHead =>
      m.(heads := m.heads + [HeadStore(Add64(Head(m), 1), |m.log|)], producer := Idle)
    case MarkDone =>
      m.(done := Done(|m.heads| - 1, |m.log|), producer := Finished)
    case Ask(max) =>
      m.(consumer := if max == 0 then Resting else TestingEmpty(max))
    case TestEmpty =>
      var max := m.consumer.max;
      m.(consumer := if Tail(m) == m.cachedHead then RetestingEmpty(max) else StartCopy(m, m.cachedHead, max))
    case ReloadHead(at) =>
      var max, head := m.consumer.max, m.heads[at].value;
      Seeing(m, at).(cachedHead := head, consumer := if Tail(m) == head then Resting else StartCopy(m, head, max))
    case ReadWord(from) =>
      var Copying(available, out, words) := m.consumer;
      var more := words + [if from < 0 then 0 else m.log[from].value];
      m.(consumer :=
           if |more| == RECORD_WORDS then Copying(available, out + [more], []) else Copying(available, out, more))
    case PublishTail =>
      m.(tails := m.tails + [Add64(Tail(m), m.consumer.available % TWO64)], consumer := Resting)
    case LoadDone(seen) =>
      if !seen then m
      else m.(seenHead := Max(m.seenHead, m.done.newestHead), view := Max(m.view, m.done.view),
              consumer := CountingPending)
    case LoadPending(at) =>
      Seeing(m, at).(consumer := if Sub64(m.heads[at].value, Tail(m)) == 0 then Exited else Resting)
  }

  /** What happened so far, counted without wrapping. */
  datatype History = History(
    accepted: seq<Record>,
    delivered: seq<Record>,
    tailCounts: seq<nat>,
    cachedTail: nat,
    cachedHead: nat)

  function Remember(h: History, m: Machine, step: Step): History
    requires Enabled(m, step)
  {
    match step
    case ReloadTail(at) => if at < |h.tailCounts| then h.(cachedTail := h.tailCounts[at]) else h
    case PublishHead => h.(accepted := h.accepted + [m.producer.rec])
    case ReloadHead(at) => h.(cachedHead := at)
    case PublishTail =>
      h.(delivered := h.delivered + m.consumer.out, tailCounts := h.tailCounts + [|h.delivered| + |m.consumer.out|])
    case _ => h
  }

  datatype State = State(m: Machine, h: History)

  function Start(capacity: Capacity): State {
    State(Machine(capacity, [], [HeadStore(0, 0)], [0], NotDone, 0, Idle, 0, 0, Resting, 0, 0, 0),
          History([], [], [0], 0, 0))
  }

  function Next(s: State, step: Step): State
    requires Enabled(s.m, step)
  {
    State(Do(s.m, step), Remember(s.h, s.m, step))
  }

  /** Any interleaving of producer and consumer steps in which every step is possible where it is taken. */
  predicate Legal(capacity: Capacity, steps: seq<Step>)
    decreases |steps|, 0
  {
    |steps| > 0 ==>
      Legal(capacity, steps[..|steps| - 1]) &&
      Enabled(Run(capacity, steps[..|steps| - 1]).m, steps[|steps| - 1])
  }

  function Run(capacity: Capacity, steps: seq<Step>): State
    requires Legal(capacity, steps)
    decreases |steps|, 1
  {
    if |steps| == 0 then Start(capacity)
    else Next(Run(capacity, steps[..|steps| - 1]), steps[|steps| - 1])
  }
}
