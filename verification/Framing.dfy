/** Newline framing on the player's socket: lines come out whole and in order, however the bytes arrive. */
module Framing {
  import opened Octets
  import opened JsonSyntax
  import opened JsonWriter
  import P = JsonParser

  const MAX_BUFFER: nat := 4 * 1024 * 1024
  const READ_CHUNK: nat := 16 * 1024

  predicate Unbroken(s: Bytes) {
    forall i :: 0 <= i < |s| ==> s[i] != NEWLINE
  }

  /** Length of the first line, or of the whole text when it has no newline. */
  function LineEnd(s: Bytes): (k: nat)
    ensures k <= |s| && Unbroken(s[..k]) && (k < |s| ==> s[k] == NEWLINE)
  {
    if s == [] || s[0] == NEWLINE then 0
    else
      var k := 1 + LineEnd(s[1..]);
      assert s[..k] == [s[0]] + s[1..][..k - 1];
      k
  }

  /** The complete lines of a byte stream, and the incomplete one after them. */
  function Lines(s: Bytes): seq<Bytes>
    decreases |s|
  {
    var k := LineEnd(s);
    if k == |s| then [] else [s[..k]] + Lines(s[k + 1..])
  }

  function Tail(s: Bytes): Bytes
    decreases |s|
  {
    var k := LineEnd(s);
    if k == |s| then s else Tail(s[k + 1..])
  }

  lemma {:induction false} EndIs(s: Bytes, k: nat)
    requires k <= |s| && Unbroken(s[..k]) && (k < |s| ==> s[k] == NEWLINE)
    ensures LineEnd(s) == k
  {
    if k > 0 {
      assert s[..k][0] == s[0];
      assert s[1..][..k - 1] == s[..k][1..];
      EndIs(s[1..], k - 1);
    }
  }

  lemma FirstLine(line: Bytes, r: Bytes)
    requires Unbroken(line)
    ensures var s := line + [NEWLINE] + r; Lines(s) == [line] + Lines(r) && Tail(s) == Tail(r)
  {
    var s := line + [NEWLINE] + r;
    assert s[..|line|] == line && s[|line| + 1..] == r;
    EndIs(s, |line|);
  }

  lemma {:induction false} TailIsUnbroken(s: Bytes)
    ensures Unbroken(Tail(s))
    decreases |s|
  {
    var k := LineEnd(s);
    if k < |s| {
      TailIsUnbroken(s[k + 1..]);
    } else {
      assert s[..k] == s;
    }
  }

  function Unlines(lines: seq<Bytes>): Bytes {
    if lines == [] then [] else lines[0] + [10] + Unlines(lines[1..])
  }

  /** The lines, each with its newline, and the rest make up the whole, and no newline is left in them. */
  lemma {:induction false} LinesMakeUpWhole(s: Bytes)
    ensures s == Unlines(Lines(s)) + Tail(s)
    ensures forall i :: 0 <= i < |Lines(s)| ==> 10 !in Lines(s)[i]
    ensures 10 !in Tail(s)
    decreases |s|
  {
    var k := LineEnd(s);
    if k < |s| {
      var rest := s[k + 1..];
      LinesMakeUpWhole(rest);
      LinesStep(s);
      TailStep(s);
      NextLineApart(s, k, rest, Lines(rest), Tail(rest));
    } else {
      assert s[..k] == s;
    }
  }

  lemma NextLineApart(s: Bytes, k: nat, rest: Bytes, lines: seq<Bytes>, tail: Bytes)
    requires k < |s| && s[k] == 10 && rest == s[k + 1..] && rest == Unlines(lines) + tail
    ensures s == Unlines([s[..k]] + lines) + tail
  {
    assert ([s[..k]] + lines)[1..] == lines;
    assert s == s[..k] + [10] + rest;
  }

  /** Bytes that arrive later only add to the incomplete line. */
  lemma {:induction false} LinesGrow(a: Bytes, b: Bytes)
    ensures Lines(a + b) == Lines(a) + Lines(Tail(a) + b)
    ensures Tail(a + b) == Tail(Tail(a) + b)
    decreases |a|
  {
    var k := LineEnd(a);
    if k < |a| {
      LinesGrow(a[k + 1..], b);
      GrowsAfterLine(a[..k], a[k + 1..], b);
      assert a == a[..k] + [NEWLINE] + a[k + 1..];
    } else {
      assert Lines(a) == [] && Tail(a) == a;
    }
  }

  lemma GrowsAfterLine(line: Bytes, rest: Bytes, b: Bytes)
    requires Unbroken(line)
    requires Lines(rest + b) == Lines(rest) + Lines(Tail(rest) + b) && Tail(rest + b) == Tail(Tail(rest) + b)
    ensures var a := line + [NEWLINE] + rest;
            Lines(a + b) == Lines(a) + Lines(Tail(a) + b) && Tail(a + b) == Tail(Tail(a) + b)
  {
    FirstLine(line, rest);
    FirstLine(line, rest + b);
    P.Glue2(line + [NEWLINE], rest, b);
    Regroup([line], Lines(rest), Lines(Tail(rest) + b));
  }

  lemma Regroup(a: seq<Bytes>, b: seq<Bytes>, c: seq<Bytes>)
    ensures a + (b + c) == a + b + c
  {
  }

  /** The lines so far and the buffer account for the whole stream. */
  predicate Accounts(lines: seq<Bytes>, buffer: Bytes, whole: Bytes) {
    lines + Lines(buffer) == Lines(whole) && Tail(buffer) == Tail(whole)
  }

  lemma AccountsForMore(lines: seq<Bytes>, buffer: Bytes, whole: Bytes, got: Bytes)
    requires Accounts(lines, buffer, whole)
    ensures Accounts(lines, buffer + got, whole + got)
  {
    LinesGrow(buffer, got);
    LinesGrow(whole, got);
    Regroup(lines, Lines(buffer), Lines(Tail(buffer) + got));
  }

  lemma AccountsForLine(lines: seq<Bytes>, line: Bytes, rest: Bytes, whole: Bytes)
    requires Unbroken(line) && Accounts(lines, line + [NEWLINE] + rest, whole)
    ensures Accounts(lines + [line], rest, whole)
  {
    FirstLine(line, rest);
    Regroup(lines, [line], Lines(rest));
  }

  /** The same, with the bytes already handed out. */
  predicate Drained(lines: seq<Bytes>, gone: Bytes, buffer: Bytes, whole: Bytes) {
    Accounts(lines, buffer, whole) && whole == gone + buffer
  }

  lemma DrainedForMore(lines: seq<Bytes>, gone: Bytes, buffer: Bytes, whole: Bytes, got: Bytes)
    requires Drained(lines, gone, buffer, whole)
    ensures Drained(lines, gone, buffer + got, whole + got)
  {
    AccountsForMore(lines, buffer, whole, got);
    P.Glue2(gone, buffer, got);
  }

  lemma DrainedForLine(lines: seq<Bytes>, gone: Bytes, line: Bytes, rest: Bytes, whole: Bytes)
    requires Unbroken(line) && Drained(lines, gone, line + [NEWLINE] + rest, whole)
    ensures Drained(lines + [line], gone + (line + [NEWLINE]), rest, whole)
  {
    AccountsForLine(lines, line, rest, whole);
    P.Glue2(gone, line + [NEWLINE], rest);
  }

  predicate UnbrokenAt(s: Bytes, i: nat, n: nat) {
    i + n <= |s| && forall k :: i <= k < i + n ==> s[k] != NEWLINE
  }

  /** Somewhere n bytes in a row hold no newline. */
  ghost predicate HasUnbroken(s: Bytes, n: nat) {
    exists i: nat :: UnbrokenAt(s, i, n)
  }

  lemma UnbrokenInside(a: Bytes, b: Bytes, n: nat)
    requires n <= |b| && Unbroken(b[..n])
    ensures HasUnbroken(a + b, n)
  {
    assert forall k :: |a| <= k < |a| + n ==> (a + b)[k] == b[..n][k - |a|];
    assert UnbrokenAt(a + b, |a|, n);
  }

  lemma FullAndDrained(lines: seq<Bytes>, gone: Bytes, buffer: Bytes, whole: Bytes)
    requires Drained(lines, gone, buffer, whole)
    requires |buffer| > MAX_BUFFER && Unbroken(buffer[..MAX_BUFFER + 1 - READ_CHUNK])
    ensures HasUnbroken(whole, MAX_BUFFER + 1 - READ_CHUNK)
  {
    UnbrokenInside(gone, buffer, MAX_BUFFER + 1 - READ_CHUNK);
  }

  /** Every line, and the incomplete one, is shorter than n. */
  predicate LinesBelow(s: Bytes, n: nat) {
    |Tail(s)| < n && forall i :: 0 <= i < |Lines(s)| ==> |Lines(s)[i]| < n
  }

  lemma AllBelow(all: seq<Bytes>, first: Bytes, rest: seq<Bytes>, n: nat)
    requires all == [first] + rest && forall i :: 0 <= i < |all| ==> |all[i]| < n
    ensures |first| < n && forall i :: 0 <= i < |rest| ==> |rest[i]| < n
  {
    assert all[0] == first;
    forall i | 0 <= i < |rest|
      ensures |rest[i]| < n
    {
      assert all[i + 1] == rest[i];
    }
  }

  lemma LinesStep(s: Bytes)
    requires LineEnd(s) < |s|
    ensures Lines(s) == [s[..LineEnd(s)]] + Lines(s[LineEnd(s) + 1..])
  {
  }

  lemma TailStep(s: Bytes)
    requires LineEnd(s) < |s|
    ensures Tail(s) == Tail(s[LineEnd(s) + 1..])
  {
  }

  lemma RestBelow(s: Bytes, rest: Bytes, n: nat)
    requires LinesBelow(s, n) && LineEnd(s) < |s| && rest == s[LineEnd(s) + 1..]
    ensures LineEnd(s) < n && LinesBelow(rest, n)
  {
    LinesStep(s);
    TailStep(s);
    AllBelow(Lines(s), s[..LineEnd(s)], Lines(rest), n);
  }

  lemma {:induction false} ShortLinesBreak(s: Bytes, n: nat, i: nat)
    requires LinesBelow(s, n)
    ensures !UnbrokenAt(s, i, n)
    decreases |s|
  {
    var k := LineEnd(s);
    if k < |s| {
      var rest := s[k + 1..];
      RestBelow(s, rest, n);
      if i > k {
        ShortLinesBreak(rest, n, i - k - 1);
        assert forall l :: 0 <= l < |rest| ==> rest[l] == s[l + k + 1];
      }
    }
  }

  // --- the buffer ---

  /** What happens at one wait on the socket. Time is not counted: late says the deadline has passed. */
  datatype Wake =
    | Idle
    | Interrupted
    | PollFailed
    | HungUp
    | NotReady(late: bool)
    | Signalled
    | ReceiveFailed
    | Chunk(bytes: Bytes, late: bool)

  datatype PollResult = Line | Timeout | Closed | SocketError | Overflow

  function Brought(wake: Wake): Bytes {
    if wake.Chunk? then wake.bytes else []
  }

  /** What the waits from one point of world up to another brought. */
  function Received(world: seq<Wake>, start: nat, used: nat): Bytes
    requires start <= used <= |world|
    decreases used
  {
    if used == start then [] else Received(world, start, used - 1) + Brought(world[used - 1])
  }

  function AllReceived(world: seq<Wake>): Bytes {
    Received(world, 0, |world|)
  }

  /** A receive hands over at most the chunk it was given room for. */
  predicate Plausible(world: seq<Wake>) {
    forall i :: 0 <= i < |world| && world[i].Chunk? ==> |world[i].bytes| <= READ_CHUNK
  }

  /** What one wait does to a buffer that holds no line, once the lines that came are taken. */
  datatype Woken = Stops | Fills | Holds(buffer: Bytes)

  function Wakes(buffer: Bytes, wake: Wake): Woken {
    match wake
    case Signalled => Holds(buffer)
    case NotReady(late) => if late then Stops else Holds(buffer)
    case Chunk(bytes, late) =>
      var more := buffer + bytes;
      if |more| > MAX_BUFFER then Fills
      else if Unbroken(more) && late then Stops
      else Holds(Tail(more))
    case _ => Stops
  }

  /** Whether a caller that takes lines for as long as there are any ends in an overflow, from this point of world
      on. */
  predicate Overflows(buffer: Bytes, world: seq<Wake>, start: nat)
    requires start <= |world|
    decreases |world| - start, 0
  {
    start < |world| && OverflowsAfter(Wakes(buffer, world[start]), world, start + 1)
  }

  predicate OverflowsAfter(woken: Woken, world: seq<Wake>, start: nat)
    requires start <= |world|
    decreases |world| - start, 1
  {
    woken.Fills? || (woken.Holds? && Overflows(woken.buffer, world, start))
  }

  lemma UnbrokenIsTail(s: Bytes)
    requires Unbroken(s)
    ensures Tail(s) == s && Lines(s) == []
  {
    EndIs(s, |s|);
  }

  class LineBuffer {
    var readBuffer: Bytes
    var scanFrom: nat

    constructor ()
      ensures Valid() && readBuffer == []
    {
      readBuffer, scanFrom := [], 0;
    }

    predicate Valid()
      reads this
    {
      scanFrom <= |readBuffer| && Unbroken(readBuffer[..scanFrom])
    }

    method TakeBufferedLine() returns (ok: bool, line: Bytes)
      requires Valid()
      modifies this
      ensures Valid()
      ensures ok ==> Unbroken(line) && old(readBuffer) == line + [NEWLINE] + readBuffer
      ensures Tail(readBuffer) == Tail(old(readBuffer)) && ok == !Unbroken(old(readBuffer))
      ensures !ok ==> Unbroken(readBuffer) && readBuffer == old(readBuffer)
    {
      var newline := scanFrom;
      while newline < |readBuffer| && readBuffer[newline] != NEWLINE
        invariant scanFrom <= newline <= |readBuffer| && Unbroken(readBuffer[..newline])
      {
        newline := newline + 1;
      }
      if newline == |readBuffer| {
        assert readBuffer[..newline] == readBuffer;
        scanFrom := |readBuffer|;
        return false, [];
      }
      line := readBuffer[..newline];
      assert readBuffer == line + [NEWLINE] + readBuffer[newline + 1..];
      FirstLine(line, readBuffer[newline + 1..]);
      readBuffer := readBuffer[newline + 1..];
      scanFrom := 0;
      ok := true;
    }

    /** Adds what a receive brought, and takes the first line unless the buffer is over its limit. */
    method AppendChunk(bytes: Bytes) returns (overflow: bool, taken: bool, line: Bytes)
      requires Valid() && Unbroken(readBuffer)
      modifies this
      ensures Valid() && overflow == (|old(readBuffer) + bytes| > MAX_BUFFER)
      ensures taken == (!overflow && !Unbroken(old(readBuffer) + bytes))
      ensures taken ==> Unbroken(line) && old(readBuffer) + bytes == line + [NEWLINE] + readBuffer
      ensures taken ==> Tail(readBuffer) == Tail(old(readBuffer) + bytes)
      ensures !taken ==> readBuffer == old(readBuffer) + bytes && (overflow || Tail(readBuffer) == readBuffer)
      ensures overflow ==> readBuffer[..|old(readBuffer)|] == old(readBuffer)
    {
      readBuffer := readBuffer + bytes;
      overflow, taken, line := |readBuffer| > MAX_BUFFER, false, [];
      if !overflow {
        taken, line := TakeBufferedLine();
        if !taken {
          UnbrokenIsTail(readBuffer);
        }
      }
    }

    /** One round of the loop of PollLine. */
    method OnWake(world: seq<Wake>, at: nat) returns (more: bool, result: PollResult, line: Bytes)
      requires Valid() && Unbroken(readBuffer) && at < |world|
      modifies this
      ensures Valid()
      ensures !more && result.Line? ==>
                Unbroken(line) && old(readBuffer) + Brought(world[at]) == line + [NEWLINE] + readBuffer
      ensures more || !result.Line? ==> readBuffer == old(readBuffer) + Brought(world[at])
      ensures more || (!result.Line? && !result.Overflow?) ==> Unbroken(readBuffer)
      ensures !more && result.Overflow? ==>
                |readBuffer| > MAX_BUFFER && readBuffer[..|old(readBuffer)|] == old(readBuffer)
      ensures Overflows(old(readBuffer), world, at) ==
              if more then Overflows(readBuffer, world, at + 1)
              else if result.Line? then Overflows(Tail(readBuffer), world, at + 1)
              else result.Overflow?
    {
      var wake := world[at];
      more, result, line := false, Timeout, [];
      match wake {
        case Idle =>
        case Interrupted =>
        case PollFailed => result := SocketError;
        case HungUp => result := Closed;
        case Signalled =>
          more := true;
        case ReceiveFailed => result := SocketError;
        case NotReady(late) =>
          more := !late;
        case Chunk(bytes, late) =>
          var overflow, taken;
          overflow, taken, line := AppendChunk(bytes);
          if overflow {
            result := Overflow;
          } else if taken {
            result := Line;
          } else {
            more := !late;
          }
      }
    }

    /** Waits for the next complete line, from this point of world on. With nothing left in world the wait times out. */
    method PollLine(world: seq<Wake>, start: nat) returns (result: PollResult, line: Bytes, used: nat)
      requires Valid() && Plausible(world) && start <= |world|
      modifies this
      ensures Valid() && start <= used <= |world|
      ensures result.Line? ==>
                Unbroken(line) && old(readBuffer) + Received(world, start, used) == line + [NEWLINE] + readBuffer
      ensures !result.Line? ==> readBuffer == old(readBuffer) + Received(world, start, used)
      ensures result.Overflow? ==> |readBuffer| > MAX_BUFFER && Unbroken(readBuffer[..MAX_BUFFER + 1 - READ_CHUNK])
      ensures !result.Line? && !result.Overflow? ==> Unbroken(readBuffer)
      ensures Overflows(Tail(old(readBuffer)), world, start) ==
              if result.Line? then Overflows(Tail(readBuffer), world, used) else result.Overflow?
    {
      var taken;
      taken, line := TakeBufferedLine();
      if taken {
        result, used := Line, start;
      } else {
        UnbrokenIsTail(readBuffer);
        result, line, used := WaitForLine(world, start);
      }
    }

    /** The loop of PollLine. */
    method WaitForLine(world: seq<Wake>, start: nat) returns (result: PollResult, line: Bytes, used: nat)
      requires Valid() && Unbroken(readBuffer) && Plausible(world) && start <= |world|
      modifies this
      ensures Valid() && start <= used <= |world|
      ensures result.Line? ==>
                Unbroken(line) && old(readBuffer) + Received(world, start, used) == line + [NEWLINE] + readBuffer
      ensures !result.Line? ==> readBuffer == old(readBuffer) + Received(world, start, used)
      ensures result.Overflow? ==> |readBuffer| > MAX_BUFFER && Unbroken(readBuffer[..MAX_BUFFER + 1 - READ_CHUNK])
      ensures !result.Line? && !result.Overflow? ==> Unbroken(readBuffer)
      ensures result.Line? ==> used > start
      ensures Overflows(old(readBuffer), world, start) ==
              if result.Line? then Overflows(Tail(readBuffer), world, used) else result.Overflow?
    {
      used := start;
      while used < |world|
        invariant Valid() && start <= used <= |world| && Unbroken(readBuffer)
        invariant readBuffer == old(readBuffer) + Received(world, start, used)
        invariant Overflows(old(readBuffer), world, start) == Overflows(readBuffer, world, used)
      {
        ReceivedNext(old(readBuffer), world, start, used);
        var more;
        more, result, line := OnWake(world, used);
        used := used + 1;
        if !more {
          return;
        }
      }
      return Timeout, [], used;
    }

    /** A caller that takes lines for as long as there are any. */
    method DrainLines(world: seq<Wake>) returns (lines: seq<Bytes>, used: nat, last: PollResult)
      requires Valid() && Plausible(world)
      modifies this
      ensures Valid() && used <= |world| && !last.Line?
      ensures Accounts(lines, readBuffer, old(readBuffer) + Received(world, 0, used))
      ensures last.Overflow? ==> HasUnbroken(old(readBuffer) + Received(world, 0, used), MAX_BUFFER + 1 - READ_CHUNK)
      ensures last.Overflow? <==> Overflows(Tail(old(readBuffer)), world, 0)
      ensures !last.Overflow? ==> Lines(readBuffer) == [] && Tail(readBuffer) == readBuffer
    {
      lines, used, last := [], 0, Line;
      ghost var whole, gone := readBuffer, [];
      while last.Line?
        invariant Valid() && used <= |world| && whole == old(readBuffer) + Received(world, 0, used)
        invariant Drained(lines, gone, readBuffer, whole)
        invariant last.Overflow? ==>
                    |readBuffer| > MAX_BUFFER && Unbroken(readBuffer[..MAX_BUFFER + 1 - READ_CHUNK])
        invariant last.Line? || last.Overflow? || Unbroken(readBuffer)
        invariant Overflows(Tail(old(readBuffer)), world, 0) ==
                  if last.Line? then Overflows(Tail(readBuffer), world, used) else last.Overflow?
        decreases last.Line?, |world| - used, |readBuffer|
      {
        ghost var before, start := readBuffer, used;
        var line;
        last, line, used := PollLine(world, used);
        MoreReceived(old(readBuffer), world, start, used);
        ghost var got := Received(world, start, used);
        DrainedForMore(lines, gone, before, whole, got);
        whole := whole + got;
        if last.Line? {
          DrainedForLine(lines, gone, line, readBuffer, whole);
          lines := lines + [line];
          gone := gone + (line + [NEWLINE]);
        }
      }
      if last.Overflow? {
        FullAndDrained(lines, gone, readBuffer, whole);
      } else {
        UnbrokenIsTail(readBuffer);
      }
    }
  }

  lemma ReceivedNext(buffer: Bytes, world: seq<Wake>, start: nat, used: nat)
    requires start <= used < |world|
    ensures buffer + Received(world, start, used + 1) == buffer + Received(world, start, used) + Brought(world[used])
  {
    P.Glue2(buffer, Received(world, start, used), Brought(world[used]));
  }

  lemma MoreReceived(buffer: Bytes, world: seq<Wake>, start: nat, used: nat)
    requires start <= used <= |world|
    ensures buffer + Received(world, 0, used) == buffer + Received(world, 0, start) + Received(world, start, used)
  {
    ReceivedJoined(world, 0, start, used);
    P.Glue2(buffer, Received(world, 0, start), Received(world, start, used));
  }

  lemma {:induction false} ReceivedJoined(world: seq<Wake>, a: nat, b: nat, c: nat)
    requires a <= b <= c <= |world|
    ensures Received(world, a, c) == Received(world, a, b) + Received(world, b, c)
  {
    if b < c {
      ReceivedJoined(world, a, b, c - 1);
      P.Glue2(Received(world, a, b), Received(world, b, c - 1), Brought(world[c - 1]));
    }
  }

  // --- which byte streams can overflow the buffer ---

  predicate LineStart(s: Bytes, i: nat) {
    i <= |s| && (i == 0 || s[i - 1] == NEWLINE)
  }

  /** A line that leaves less than a chunk of room in the buffer, and more than a buffer of bytes from its start on. */
  predicate LongLineAt(s: Bytes, i: nat) {
    LineStart(s, i) && UnbrokenAt(s, i, MAX_BUFFER + 1 - READ_CHUNK) && i + MAX_BUFFER < |s|
  }

  ghost predicate HasLongLine(s: Bytes) {
    exists i: nat :: LongLineAt(s, i)
  }

  /** t is what stands after the last newline of s. */
  predicate EndsWithTail(s: Bytes, t: Bytes) {
    |t| <= |s| && LineStart(s, |s| - |t|) && s[|s| - |t|..] == t
  }

  lemma TailOfRest(s: Bytes, k: nat, t: Bytes)
    requires k < |s| && s[k] == NEWLINE && EndsWithTail(s[k + 1..], t)
    ensures EndsWithTail(s, t)
  {
    var rest := s[k + 1..];
    var i := |rest| - |t|;
    assert i > 0 ==> rest[i - 1] == s[k + i];
    assert s[k + 1 + i..] == rest[i..];
  }

  lemma {:induction false} TailStarts(s: Bytes)
    ensures EndsWithTail(s, Tail(s))
    decreases |s|
  {
    var k := LineEnd(s);
    if k < |s| {
      TailStep(s);
      TailStarts(s[k + 1..]);
      TailOfRest(s, k, Tail(s));
    }
  }

  lemma LongLineStays(a: Bytes, b: Bytes)
    requires HasLongLine(a)
    ensures HasLongLine(a + b)
  {
    var i: nat :| LongLineAt(a, i);
    assert LongLineAt(a + b, i);
  }

  /** A chunk that fills the buffer comes after a long line. */
  lemma FilledByLongLine(before: Bytes, bytes: Bytes)
    requires |bytes| <= READ_CHUNK && |Tail(before) + bytes| > MAX_BUFFER
    ensures HasLongLine(before + bytes)
  {
    var i, s := |before| - |Tail(before)|, before + bytes;
    TailStarts(before);
    TailIsUnbroken(before);
    assert forall k :: i <= k < |before| ==> s[k] == Tail(before)[k - i];
    assert LongLineAt(s, i);
  }

  lemma ReceivedFirst(world: seq<Wake>, start: nat)
    requires start < |world|
    ensures Received(world, start, |world|) == Brought(world[start]) + Received(world, start + 1, |world|)
  {
    ReceivedJoined(world, start, start + 1, |world|);
    assert Received(world, start, start + 1) == [] + Brought(world[start]) == Brought(world[start]);
  }

  lemma {:induction false} OverflowsByLongLine(before: Bytes, world: seq<Wake>, start: nat)
    requires Plausible(world) && start <= |world| && Overflows(Tail(before), world, start)
    ensures HasLongLine(before + Received(world, start, |world|))
    decreases |world| - start
  {
    var bytes, later := Brought(world[start]), Received(world, start + 1, |world|);
    ReceivedFirst(world, start);
    P.Glue2(before, bytes, later);
    if Wakes(Tail(before), world[start]).Fills? {
      FilledByLongLine(before, bytes);
      LongLineStays(before + bytes, later);
    } else {
      TailHeld(before, world[start]);
      OverflowsByLongLine(before + bytes, world, start + 1);
    }
  }

  lemma TailHeld(before: Bytes, wake: Wake)
    requires Wakes(Tail(before), wake).Holds?
    ensures Wakes(Tail(before), wake).buffer == Tail(before + Brought(wake))
  {
    LinesGrow(before, Brought(wake));
    assert before + [] == before;
  }

  lemma NoTailAtStart(s: Bytes)
    requires LineStart(s, |s|)
    ensures Tail(s) == []
  {
    TailStarts(s);
    TailIsUnbroken(s);
    if Tail(s) != [] {
      SameEnd(s, Tail(s));
      assert false;
    }
  }

  lemma SameEnd(s: Bytes, t: Bytes)
    requires 0 < |t| <= |s| && s[|s| - |t|..] == t
    ensures s[|s| - 1] == t[|t| - 1]
  {
  }

  /** From the start of a line on, the tail is what came of it. */
  lemma TailSince(s: Bytes, i: nat)
    requires LineStart(s, i) && Unbroken(s[i..])
    ensures Tail(s) == s[i..]
  {
    var first, u := s[..i], s[i..];
    assert i > 0 ==> first[i - 1] == s[i - 1];
    NoTailAtStart(first);
    LinesGrow(first, u);
    assert first + u == s && [] + u == u;
    UnbrokenIsTail(u);
  }

  lemma LongLineLeft(s: Bytes, i: nat, j: nat)
    requires LongLineAt(s, i) && j == i + (MAX_BUFFER + 1 - READ_CHUNK)
    ensures |Tail(s[..j])| == MAX_BUFFER + 1 - READ_CHUNK
  {
    assert forall k :: i <= k < j ==> s[..j][i..][k - i] == s[k];
    TailSince(s[..j], i);
  }

  /** A byte stream that arrives byte by byte, but for one whole chunk. */
  function OneChunkAt(s: Bytes, j: nat): (world: seq<Wake>)
    requires j + READ_CHUNK <= |s|
    ensures |world| == |s| + 1 - READ_CHUNK && Plausible(world)
    ensures forall k :: 0 <= k < j ==> world[k] == Chunk([s[k]], false)
    ensures world[j] == Chunk(s[j..j + READ_CHUNK], false)
    ensures forall k :: j < k < |world| ==> world[k] == Chunk([s[k - 1 + READ_CHUNK]], false)
  {
    seq(|s| + 1 - READ_CHUNK, k requires 0 <= k < |s| + 1 - READ_CHUNK =>
      if k < j then Chunk([s[k]], false)
      else if k == j then Chunk(s[j..j + READ_CHUNK], false)
      else Chunk([s[k - 1 + READ_CHUNK]], false))
  }

  /** How much of the stream the first k waits bring. */
  function Reached(j: nat, k: nat): nat {
    if k <= j then k else k - 1 + READ_CHUNK
  }

  lemma PieceAt(s: Bytes, j: nat, k: nat)
    requires j + READ_CHUNK <= |s| && k < |s| + 1 - READ_CHUNK
    ensures Reached(j, k) <= Reached(j, k + 1) <= |s|
    ensures Brought(OneChunkAt(s, j)[k]) == s[Reached(j, k)..Reached(j, k + 1)]
  {
  }

  lemma SlicesJoin(s: Bytes, n: nat, m: nat)
    requires n <= m <= |s|
    ensures s[..m] == s[..n] + s[n..m]
  {
  }

  lemma {:induction false} OneChunkReceived(s: Bytes, j: nat, k: nat)
    requires j + READ_CHUNK <= |s| && k <= |s| + 1 - READ_CHUNK
    ensures Received(OneChunkAt(s, j), 0, k) == s[..Reached(j, k)]
  {
    if k > 0 {
      OneChunkReceived(s, j, k - 1);
      PieceAt(s, j, k - 1);
      SlicesJoin(s, Reached(j, k - 1), Reached(j, k));
    }
  }

  /** An overflow later on is one from here on, if no wait ends in between. */
  lemma OverflowsEarlier(before: Bytes, now: Bytes, world: seq<Wake>, start: nat)
    requires start < |world| && world[start].Chunk? && !world[start].late && now == before + world[start].bytes
    requires Overflows(Tail(now), world, start + 1)
    ensures Overflows(Tail(before), world, start)
  {
    if Wakes(Tail(before), world[start]).Holds? {
      TailHeld(before, world[start]);
    }
  }

  lemma {:induction false} TrickleOverflows(s: Bytes, j: nat, k: nat)
    requires k <= j && j + READ_CHUNK <= |s| && Overflows(Tail(s[..j]), OneChunkAt(s, j), j)
    ensures Overflows(Tail(s[..k]), OneChunkAt(s, j), k)
    decreases j - k
  {
    if k < j {
      TrickleOverflows(s, j, k + 1);
      SlicesJoin(s, k, k + 1);
      PieceAt(s, j, k);
      OverflowsEarlier(s[..k], s[..k + 1], OneChunkAt(s, j), k);
    }
  }

  /** Byte by byte up to where a chunk no longer fits, and then a whole chunk. */
  lemma LongLineOverflows(s: Bytes, i: nat) returns (world: seq<Wake>)
    requires LongLineAt(s, i)
    ensures Plausible(world) && AllReceived(world) == s && Overflows([], world, 0)
  {
    var j := i + (MAX_BUFFER + 1 - READ_CHUNK);
    world := OneChunkAt(s, j);
    LongLineLeft(s, i, j);
    assert Wakes(Tail(s[..j]), world[j]).Fills?;
    TrickleOverflows(s, j, 0);
    assert Tail(s[..0]) == [];
    OneChunkReceived(s, j, |world|);
    assert s[..|s|] == s;
  }

  /** Some way of cutting a byte stream into chunks overflows a fresh buffer exactly when it has a line that leaves less
      than a chunk of room, with more than a buffer of bytes from its start on. */
  lemma OverflowIff(s: Bytes)
    ensures HasLongLine(s) <==> exists world :: Plausible(world) && AllReceived(world) == s && Overflows([], world, 0)
  {
    if HasLongLine(s) {
      var i: nat :| LongLineAt(s, i);
      var world := LongLineOverflows(s, i);
    }
    if world :| Plausible(world) && AllReceived(world) == s && Overflows([], world, 0) {
      OverflowsByLongLine([], world, 0);
      assert [] + s == s;
    }
  }

  // --- commands over the socket ---

  function Joined(chunks: seq<Bytes>): Bytes {
    if chunks == [] then [] else chunks[0] + Joined(chunks[1..])
  }

  /** The lines found when the chunks arrive one by one and after each the complete lines are taken. */
  function TakenLines(buffer: Bytes, chunks: seq<Bytes>): seq<Bytes>
    decreases |chunks|
  {
    if chunks == [] then []
    else Lines(buffer + chunks[0]) + TakenLines(Tail(buffer + chunks[0]), chunks[1..])
  }

  /** However a byte stream is cut into chunks, the same lines come out. */
  lemma {:induction false} ChunkingIsInvisible(buffer: Bytes, chunks: seq<Bytes>)
    requires Unbroken(buffer)
    ensures TakenLines(buffer, chunks) == Lines(buffer + Joined(chunks))
    decreases |chunks|
  {
    if chunks == [] {
      assert buffer + [] == buffer;
    } else {
      var now, later := buffer + chunks[0], Joined(chunks[1..]);
      TailIsUnbroken(now);
      ChunkingIsInvisible(Tail(now), chunks[1..]);
      LinesGrow(now, later);
      P.Glue2(buffer, chunks[0], later);
    }
  }

  function CommandStream(cs: seq<Command>): Bytes {
    if cs == [] then [] else CommandLine(cs[0]) + [NEWLINE] + CommandStream(cs[1..])
  }

  lemma FirstOfStream(c: Command, rest: Bytes, stream: Bytes)
    requires stream == CommandLine(c) + [NEWLINE] + rest
    ensures Lines(stream) == [CommandLine(c)] + Lines(rest) && Tail(stream) == Tail(rest)
  {
    CommandIsPrintable(c);
    FirstLine(CommandLine(c), rest);
  }

  lemma {:induction false} StreamLines(cs: seq<Command>)
    ensures |Lines(CommandStream(cs))| == |cs| && Tail(CommandStream(cs)) == []
    ensures forall i :: 0 <= i < |cs| ==> Lines(CommandStream(cs))[i] == CommandLine(cs[i])
  {
    if cs != [] {
      StreamLines(cs[1..]);
      FirstOfStream(cs[0], CommandStream(cs[1..]), CommandStream(cs));
    }
  }

  /** What a reader makes of one line. */
  function ReadLine(line: Bytes, limits: Limits): Read {
    match P.ParseDocument(line, limits)
    case Failed => NotACommand
    case Parsed(d, _) => CommandOf(Meaning(d.value))
  }

  /** Any commands, written one after the other and cut into any chunks, come out as the same words and ids. */
  lemma CommandsSurvive(cs: seq<Command>, chunks: seq<Bytes>, limits: Limits)
    requires SuitsCommands(limits) && Joined(chunks) == CommandStream(cs)
    ensures var lines := TakenLines([], chunks);
            |lines| == |cs| && forall i :: 0 <= i < |cs| ==> ReadLine(lines[i], limits) == ReadCommand(cs[i])
  {
    ChunkingIsInvisible([], chunks);
    assert [] + Joined(chunks) == CommandStream(cs);
    StreamLines(cs);
    forall i | 0 <= i < |cs|
      ensures ReadLine(CommandLine(cs[i]), limits) == ReadCommand(cs[i])
    {
      CommandRoundTrip(cs[i], limits);
    }
  }

  /** Commands that each leave room for a chunk in the buffer. */
  predicate Fit(cs: seq<Command>) {
    forall i :: 0 <= i < |cs| ==> |CommandLine(cs[i])| <= MAX_BUFFER - READ_CHUNK
  }

  lemma FittingLines(cs: seq<Command>)
    requires Fit(cs)
    ensures LinesBelow(CommandStream(cs), MAX_BUFFER + 1 - READ_CHUNK)
  {
    StreamLines(cs);
  }

  /** The bytes of such commands have no long line, whatever follows. */
  lemma FittingCommandsBreak(cs: seq<Command>)
    requires Fit(cs)
    ensures !HasLongLine(CommandStream(cs))
  {
    FittingLines(cs);
    forall i: nat
      ensures !LongLineAt(CommandStream(cs), i)
    {
      ShortLinesBreak(CommandStream(cs), MAX_BUFFER + 1 - READ_CHUNK, i);
    }
  }

  lemma OverflowsOnLongLine(cs: seq<Command>, world: seq<Wake>)
    requires Plausible(world) && AllReceived(world) == CommandStream(cs) && Overflows([], world, 0)
    ensures HasLongLine(CommandStream(cs)) && !Fit(cs)
  {
    OverflowsByLongLine([], world, 0);
    assert [] + AllReceived(world) == AllReceived(world);
    if Fit(cs) {
      FittingCommandsBreak(cs);
    }
  }

  /** Lines taken so far from a stream of commands are those of the first commands; with nothing left over, of all. */
  lemma LinesAreCommands(cs: seq<Command>, lines: seq<Bytes>, buffer: Bytes, got: Bytes, later: Bytes, limits: Limits)
    requires SuitsCommands(limits) && got + later == CommandStream(cs) && Accounts(lines, buffer, got)
    ensures |lines| <= |cs| && forall i :: 0 <= i < |lines| ==> ReadLine(lines[i], limits) == ReadCommand(cs[i])
    ensures later == [] && Lines(buffer) == [] ==> |lines| == |cs|
  {
    StreamLines(cs);
    LinesGrow(got, later);
    assert Lines(CommandStream(cs)) == lines + Lines(buffer) + Lines(Tail(got) + later);
    forall i | 0 <= i < |lines|
      ensures ReadLine(lines[i], limits) == ReadCommand(cs[i])
    {
      assert lines[i] == Lines(CommandStream(cs))[i];
      CommandRoundTrip(cs[i], limits);
    }
    if later == [] {
      assert got + [] == got;
    }
  }

  /** A stream of commands without a long line, however it arrives, never overflows a fresh buffer; the lines drained
      read back as the first commands, and as all of them once everything has arrived. */
  method DrainCommands(buffer: LineBuffer, world: seq<Wake>, ghost cs: seq<Command>, ghost limits: Limits)
    returns (lines: seq<Bytes>, used: nat, last: PollResult)
    requires buffer.Valid() && buffer.readBuffer == [] && Plausible(world)
    requires SuitsCommands(limits) && AllReceived(world) == CommandStream(cs)
    modifies buffer
    ensures last.Overflow? ==> HasLongLine(CommandStream(cs)) && !Fit(cs)
    ensures used <= |world| && |lines| <= |cs|
    ensures forall i :: 0 <= i < |lines| ==> ReadLine(lines[i], limits) == ReadCommand(cs[i])
    ensures used == |world| && !last.Overflow? ==> |lines| == |cs|
  {
    lines, used, last := buffer.DrainLines(world);
    ghost var got, later := Received(world, 0, used), Received(world, used, |world|);
    ReceivedJoined(world, 0, used, |world|);
    assert [] + got == got;
    if last.Overflow? {
      OverflowsOnLongLine(cs, world);
    }
    LinesAreCommands(cs, lines, buffer.readBuffer, got, later, limits);
  }
}
