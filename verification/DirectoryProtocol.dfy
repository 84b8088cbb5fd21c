/** Publishing, reading and caching the pass directory, store by store and load by load. */
module DirectoryProtocol {
  import opened Octets
  import opened Bits
  import opened Directory

  /** A read under way: the publish whose version it loaded, and what it copied so far. */
  datatype Read = Idle | Reading(version: nat, count: nat, counted: bool, bytes: Bytes)

  /** The consumer's copy. from is the publish whose version it carries, or -1 at the start. */
  datatype Cache = Cache(version: U32, from: int, count: nat, bytes: Bytes)

  /** published: directories the producer has begun to publish. pending: stores of the last one still to come.
      seen: the newest version the consumer has loaded. */
  datatype State = State(published: seq<Names>, log: Log, pending: Log, seen: nat, read: Read, cache: Cache)

  /** No version a producer writes first is this one. */
  const NEVER: U32 := 0xFFFF_FFFF

  const START: State := State([], [], [], 0, Idle, Cache(NEVER, -1, 0, []))

  /** How many stores have been made once publish k is complete. */
  function EndOf(published: seq<Names>, k: nat): nat
    requires k <= |published|
  {
    |AllStores(published[..k])|
  }

  /** Versions published so far. */
  function Completed(st: State): nat {
    if st.pending != [] && st.published != [] then |st.published| - 1 else |st.published|
  }

  function Wanted(count: nat): nat {
    Min(count, SLOTS) * SLOT_SIZE
  }

  /** The consumer may load any value not older than the version it loaded: memory as of some store between then and
      now. */
  datatype Step =
    | Begin(names: Names)
    | Put
    | LoadVersion(k: nat)
    | LoadCount(asOf: nat)
    | LoadByte(asOf: nat)
    | Install

  predicate Fresh(st: State, asOf: nat)
    requires st.read.Reading?
  {
    st.read.version <= |st.published| && EndOf(st.published, st.read.version) <= asOf <= |st.log|
  }

  predicate Legal(st: State, step: Step) {
    match step
    case Begin(_) => st.pending == []
    case Put => st.pending != []
    case LoadVersion(k) => st.read.Idle? && st.seen <= k <= Completed(st)
    case LoadCount(asOf) => st.read.Reading? && !st.read.counted && Fresh(st, asOf)
    case LoadByte(asOf) =>
      st.read.Reading? && st.read.counted && |st.read.bytes| < Wanted(st.read.count) && Fresh(st, asOf)
    case Install => st.read.Reading? && st.read.counted && |st.read.bytes| >= Wanted(st.read.count)
  }

  function ByteNumber(log: Log, j: nat): Byte {
    ByteAt(log, j / SLOT_SIZE, j % SLOT_SIZE)
  }

  /** RefreshLayout: nothing changes when the version is the cached one. */
  function Installed(cache: Cache, read: Read): Cache
    requires read.Reading?
  {
    if read.version % TWO32 == cache.version then cache
    else Cache(read.version % TWO32, read.version, Min(read.count, SLOTS), read.bytes)
  }

  function Next(st: State, step: Step): State
    requires Legal(st, step)
  {
    match step
    case Begin(names) => st.(published := st.published + [names], pending := PublishStores(names))
    case Put => st.(log := st.log + [st.pending[0]], pending := st.pending[1..])
    case LoadVersion(k) => st.(seen := k, read := Reading(k, 0, false, []))
    case LoadCount(asOf) => st.(read := st.read.(counted := true, count := CountAt(st.log[..asOf])))
    case LoadByte(asOf) => st.(read := st.read.(bytes := st.read.bytes + [ByteNumber(st.log[..asOf], |st.read.bytes|)]))
    case Install => st.(read := Idle, cache := Installed(st.cache, st.read))
  }

  predicate Run(states: seq<State>, steps: seq<Step>) {
    && |states| == |steps| + 1 && states[0] == START
    && forall i :: 0 <= i < |steps| ==> Legal(states[i], steps[i]) && states[i + 1] == Next(states[i], steps[i])
  }

  // --- what always holds ---

  predicate LogInv(st: State) {
    && st.log + st.pending == AllStores(st.published)
    && (st.pending != [] ==> st.published != [] && |st.log| >= EndOf(st.published, |st.published| - 1))
  }

  predicate Copied(log: Log, bytes: Bytes) {
    forall j :: 0 <= j < |bytes| ==> bytes[j] == ByteNumber(log, j)
  }

  /** Whatever was read since version k was loaded is what memory holds, unless stores have been made since. */
  predicate ReadInv(st: State)
    requires st.seen <= |st.published|
  {
    st.read.Reading? ==>
      && st.read.version == st.seen
      && (|st.log| == EndOf(st.published, st.seen) ==>
           Copied(st.log, st.read.bytes) && (st.read.counted ==> st.read.count == CountAt(st.log)))
  }

  predicate CacheInv(st: State)
    requires st.seen <= |st.published|
  {
    && st.cache.from <= st.seen
    && st.cache.version == (if st.cache.from < 0 then NEVER else st.cache.from % TWO32)
    && (st.cache.from >= 0 && |st.log| == EndOf(st.published, st.seen) && st.cache.from == st.seen ==>
         Copied(st.log, st.cache.bytes) && st.cache.count == Min(CountAt(st.log), SLOTS) &&
         |st.cache.bytes| >= Wanted(CountAt(st.log)))
  }

  predicate Inv(st: State) {
    && st.seen <= |st.published| && EndOf(st.published, st.seen) <= |st.log|
    && LogInv(st) && ReadInv(st) && CacheInv(st)
  }

  lemma {:induction false} EndsAscend(published: seq<Names>, j: nat, k: nat)
    requires j <= k <= |published|
    ensures EndOf(published, j) + (k - j) <= EndOf(published, k)
    decreases k
  {
    if j < k {
      EndsAscend(published, j, k - 1);
      assert published[..k][..k - 1] == published[..k - 1];
    }
  }

  lemma BeginKeeps(st: State, names: Names)
    requires Inv(st) && st.pending == []
    ensures Inv(Next(st, Begin(names)))
  {
    var t := Next(st, Begin(names));
    assert t.published[..|st.published|] == st.published;
    assert t.published[..st.seen] == st.published[..st.seen];
    assert st.log + [] == st.log && st.published[..|st.published|] == st.published;
  }

  lemma PutKeeps(st: State)
    requires Inv(st) && st.pending != []
    ensures Inv(Next(st, Put))
  {
    var t := Next(st, Put);
    assert t.log + t.pending == st.log + st.pending;
  }

  lemma CompletedInLog(st: State)
    requires LogInv(st)
    ensures Completed(st) <= |st.published| && EndOf(st.published, Completed(st)) <= |st.log|
  {
    assert st.published[..|st.published|] == st.published;
  }

  lemma LoadVersionKeeps(st: State, k: nat)
    requires Inv(st) && Legal(st, LoadVersion(k))
    ensures Inv(Next(st, LoadVersion(k)))
  {
    CompletedInLog(st);
    EndsAscend(st.published, k, Completed(st));
    EndsAscend(st.published, st.seen, k);
  }

  /** What a read finds when no store has been made since the version it goes with. */
  lemma NewestRead(log: Log, asOf: nat, bytes: Bytes)
    requires asOf == |log|
    ensures CountAt(log[..asOf]) == CountAt(log)
    ensures Copied(log, bytes) ==> Copied(log, bytes + [ByteNumber(log[..asOf], |bytes|)])
  {
    assert log[..asOf] == log;
  }

  lemma ReadKeeps(st: State, read: Read)
    requires Inv(st) && st.read.Reading? && read.Reading? && read.version == st.read.version
    requires |st.log| == EndOf(st.published, st.seen) ==>
               Copied(st.log, read.bytes) && (read.counted ==> read.count == CountAt(st.log))
    ensures Inv(st.(read := read))
  {
  }

  lemma LoadCountKeeps(st: State, asOf: nat)
    requires Inv(st) && Legal(st, LoadCount(asOf))
    ensures Inv(Next(st, LoadCount(asOf)))
  {
    if |st.log| == EndOf(st.published, st.seen) {
      NewestRead(st.log, asOf, st.read.bytes);
    }
    ReadKeeps(st, Next(st, LoadCount(asOf)).read);
  }

  lemma LoadByteKeeps(st: State, asOf: nat)
    requires Inv(st) && Legal(st, LoadByte(asOf))
    ensures Inv(Next(st, LoadByte(asOf)))
  {
    if |st.log| == EndOf(st.published, st.seen) {
      NewestRead(st.log, asOf, st.read.bytes);
    }
    ReadKeeps(st, Next(st, LoadByte(asOf)).read);
  }

  lemma InstallKeeps(st: State)
    requires Inv(st) && Legal(st, Install)
    ensures Inv(Next(st, Install))
  {
  }

  lemma StepKeeps(st: State, step: Step)
    requires Inv(st) && Legal(st, step)
    ensures Inv(Next(st, step))
  {
    match step
    case Begin(names) => BeginKeeps(st, names);
    case Put => PutKeeps(st);
    case LoadVersion(k) => LoadVersionKeeps(st, k);
    case LoadCount(asOf) => LoadCountKeeps(st, asOf);
    case LoadByte(asOf) => LoadByteKeeps(st, asOf);
    case Install => InstallKeeps(st);
  }

  lemma {:induction false} RunKeeps(states: seq<State>, steps: seq<Step>)
    requires Run(states, steps)
    ensures Inv(states[|steps|])
    decreases |steps|
  {
    if |steps| > 0 {
      var n := |steps| - 1;
      RunKeeps(states[..n + 1], steps[..n]);
      StepKeeps(states[n], steps[n]);
    }
  }

  // --- convergence ---

  /** The consumer's copy shows exactly this directory: so many names, at most 32, each as far as it fits. */
  predicate Shows(cache: Cache, names: Names) {
    && cache.count == (if |names| < 32 then |names| else 32)
    && |cache.bytes| >= cache.count * SLOT_SIZE
    && forall i :: 0 <= i < cache.count ==> IsText(CString(cache.bytes[i * SLOT_SIZE..(i + 1) * SLOT_SIZE]), names[i])
  }

  lemma SlotShows(log: Log, bytes: Bytes, i: nat, name: Bytes)
    requires Copied(log, bytes) && HoldsName(log, i, name) && |name| < SLOT_SIZE && NoZero(name)
    requires (i + 1) * SLOT_SIZE <= |bytes|
    ensures CString(bytes[i * SLOT_SIZE..(i + 1) * SLOT_SIZE]) == name
  {
    var s := bytes[i * SLOT_SIZE..(i + 1) * SLOT_SIZE];
    forall k | 0 <= k < SLOT_SIZE
      ensures s[k] == ByteAt(log, i, k)
    {
      assert (i * SLOT_SIZE + k) / SLOT_SIZE == i && (i * SLOT_SIZE + k) % SLOT_SIZE == k;
    }
    CStringIs(s, name);
  }

  /** A copy of memory as a publish leaves it. */
  lemma CopyShows(before: Log, names: Names, log: Log, cache: Cache)
    requires log == before + PublishStores(names) && Copied(log, cache.bytes)
    requires cache.count == Min(CountAt(log), SLOTS) && |cache.bytes| >= Wanted(CountAt(log))
    ensures Shows(cache, names)
  {
    PublishWrites(before, names, 0);
    forall i | 0 <= i < cache.count
      ensures IsText(CString(cache.bytes[i * SLOT_SIZE..(i + 1) * SLOT_SIZE]), names[i])
    {
      PublishWrites(before, names, i);
      CutIsText(names[i]);
      SlotShows(log, cache.bytes, i, Cut(names[i]));
    }
  }

  /** No publish is under way, and the version this copy carries is the latest. */
  lemma LatestShows(st: State)
    requires Inv(st) && st.pending == [] && |st.published| > 0
    requires st.seen == |st.published| && st.cache.from == st.seen
    ensures Shows(st.cache, st.published[|st.published| - 1])
  {
    var n := |st.published| - 1;
    assert st.published[..n + 1] == st.published && st.log + [] == st.log;
    CopyShows(AllStores(st.published[..n]), st.published[n], st.log, st.cache);
  }

  lemma InstallsLatest(st: State)
    requires Inv(st) && Legal(st, Install)
    requires st.pending == [] && st.read.version == |st.published| && 0 < |st.published| < NEVER
    ensures Shows(Next(st, Install).cache, st.published[|st.published| - 1])
  {
    var t := Next(st, Install);
    InstallKeeps(st);
    assert st.read.version % TWO32 == st.read.version;
    assert t.cache.from == t.seen;
    LatestShows(t);
  }

  /** The states that runs come to. */
  ghost predicate Reachable(st: State) {
    exists states: seq<State>, steps: seq<Step> :: Run(states, steps) && states[|steps|] == st
  }

  lemma ReachableKeeps(st: State)
    requires Reachable(st)
    ensures Inv(st)
  {
    var states: seq<State>, steps: seq<Step> :| Run(states, steps) && states[|steps|] == st;
    RunKeeps(states, steps);
  }

  /** With fewer than 2^32 - 1 publishes: when no publish is under way, a refresh that loaded the newest version
      leaves the consumer with the latest directory, whatever mixture earlier reads copied,
      and also when it changes nothing because the versions match. */
  lemma RefreshConverges(st: State)
    requires Reachable(st) && Legal(st, Install)
    requires st.pending == [] && st.read.version == |st.published| && 0 < |st.published| < NEVER
    ensures Shows(Next(st, Install).cache, st.published[|st.published| - 1])
  {
    ReachableKeeps(st);
    InstallsLatest(st);
  }

  // --- and with more publishes it need not ---

  lemma ReachStart()
    ensures Reachable(START)
  {
    var states: seq<State>, steps: seq<Step> := [START], [];
    assert Run(states, steps) && states[|steps|] == START;
  }

  lemma RunGrows(states: seq<State>, steps: seq<Step>, step: Step)
    requires Run(states, steps) && Legal(states[|steps|], step)
    ensures Run(states + [Next(states[|steps|], step)], steps + [step])
  {
  }

  lemma ReachNext(st: State, step: Step)
    requires Reachable(st) && Legal(st, step)
    ensures Reachable(Next(st, step))
  {
    var states: seq<State>, steps: seq<Step> :| Run(states, steps) && states[|steps|] == st;
    RunGrows(states, steps, step);
    assert (states + [Next(st, step)])[|steps + [step]|] == Next(st, step);
  }

  lemma {:induction false} PutAll(st: State) returns (t: State)
    requires Reachable(st)
    ensures Reachable(t) && t == st.(log := t.log, pending := [])
    decreases |st.pending|
  {
    if st.pending == [] {
      t := st;
    } else {
      ReachNext(st, Put);
      t := PutAll(Next(st, Put));
    }
  }

  lemma {:induction false} PublishMany(st: State, names: Names, m: nat) returns (t: State)
    requires Reachable(st) && st.pending == []
    ensures Reachable(t) && t == st.(log := t.log, published := t.published)
    ensures |t.published| == |st.published| + m && (m > 0 ==> t.published[|t.published| - 1] == names)
    decreases m
  {
    if m == 0 {
      t := st;
    } else {
      var s := PublishMany(st, names, m - 1);
      ReachNext(s, Begin(names));
      t := PutAll(Next(s, Begin(names)));
    }
  }

  lemma {:induction false} LoadBytes(st: State) returns (t: State)
    requires Reachable(st) && st.read.Reading? && st.read.counted && Fresh(st, |st.log|)
    ensures Reachable(t) && Legal(t, Install) && t == st.(read := t.read) && t.read.version == st.read.version
    decreases Wanted(st.read.count) - |st.read.bytes|
  {
    if |st.read.bytes| < Wanted(st.read.count) {
      ReachNext(st, LoadByte(|st.log|));
      t := LoadBytes(Next(st, LoadByte(|st.log|)));
    } else {
      t := st;
    }
  }

  lemma ReadNewest(st: State) returns (t: State)
    requires Reachable(st) && st.pending == [] && st.read.Idle?
    ensures Reachable(t) && Legal(t, Install) && t == st.(read := t.read, seen := |st.published|)
    ensures t.read.version == |st.published|
  {
    ReachableKeeps(st);
    CompletedInLog(st);
    ReachNext(st, LoadVersion(|st.published|));
    var a := Next(st, LoadVersion(|st.published|));
    ReachNext(a, LoadCount(|st.log|));
    t := LoadBytes(Next(a, LoadCount(|st.log|)));
  }

  /** A first refresh after k publishes of an empty directory. */
  lemma RefreshAtEmpty(k: nat) returns (st: State)
    ensures Reachable(st) && st.pending == [] && st.read.Idle? && |st.published| == k
    ensures st.cache.version == k % TWO32 && st.cache.count == 0
  {
    ReachStart();
    var a := PublishMany(START, [], k);
    var b := ReadNewest(a);
    ReachNext(b, Install);
    ReachableKeeps(b);
    st := Next(b, Install);
    assert b.published[..k] == b.published && b.log + [] == b.log;
    if k > 0 {
      assert b.published[k - 1] == [];
      PublishWrites(AllStores(b.published[..k - 1]), [], 0);
    }
    assert CountAt(b.log) == 0;
  }

  lemma CollidesFrom(st: State, n: nat) returns (t: State)
    requires Reachable(st) && st.pending == [] && st.read.Idle? && |st.published| < n
    requires st.cache.count == 0 && st.cache.version == n % TWO32
    ensures Reachable(t) && Legal(t, Install) && t.pending == [] && t.read.version == |t.published| == n
    ensures !Shows(Next(t, Install).cache, t.published[n - 1])
  {
    var a := PublishMany(st, [[65]], n - |st.published|);
    t := ReadNewest(a);
  }

  /** A consumer that refreshes, or has just started, and comes back when the version reads the same again. */
  lemma VersionsCollide(n: nat) returns (st: State)
    requires n >= NEVER
    ensures Reachable(st) && Legal(st, Install) && st.pending == [] && st.read.version == |st.published| == n
    ensures !Shows(Next(st, Install).cache, st.published[n - 1])
  {
    if n == NEVER {
      ReachStart();
      st := CollidesFrom(START, n);
    } else {
      var k := n - TWO32;
      var a := RefreshAtEmpty(k);
      ModUnique(n, TWO32, k / TWO32 + 1, k % TWO32);
      st := CollidesFrom(a, n);
    }
  }

  /** After n publishes such a refresh is sure to leave the latest directory exactly when n is below 2^32 - 1. */
  lemma ConvergesIff(n: nat)
    requires n > 0
    ensures n < NEVER <==>
            forall st :: Reachable(st) && Legal(st, Install) && st.pending == [] &&
                         st.read.version == |st.published| == n ==>
              Shows(Next(st, Install).cache, st.published[n - 1])
  {
    if n < NEVER {
      forall st | Reachable(st) && Legal(st, Install) && st.pending == [] && st.read.version == |st.published| == n
        ensures Shows(Next(st, Install).cache, st.published[n - 1])
      {
        RefreshConverges(st);
      }
    } else {
      var st := VersionsCollide(n);
    }
  }
}
