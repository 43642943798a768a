/**
 The kernel side: a file context that owns a frozen snapshot of the physical memory ranges, and the
 callbacks that create it, serve it, compare it and release it.
 */
module Driver {
  import opened Words

  datatype PhysicalRange = PhysicalRange(base: u64, length: u64)

  const TERMINATOR := PhysicalRange(0, 0)

  /** What the memory manager hands out: entries up to an all-zero one. */
  type RangeArray = a: seq<PhysicalRange> | TERMINATOR in a && |a| <= U32_MAX witness [TERMINATOR]

  /** The entries in front of the terminator. */
  function TableOf(a: seq<PhysicalRange>): (table: seq<PhysicalRange>)
    ensures |table| <= |a| && table == a[..|table|] && TERMINATOR !in table
    ensures |table| < |a| ==> a[|table|] == TERMINATOR
  {
    if |a| == 0 || a[0] == TERMINATOR then [] else [a[0]] + TableOf(a[1..])
  }

  datatype Totals = Totals(bytes: u64, highestEnd: u64)

  /** Sum of the lengths and highest end; entries that leave 64 bits are skipped. */
  function Summarize(table: seq<PhysicalRange>): Totals {
    if |table| == 0 then Totals(0, 0)
    else
      var t := Summarize(table[..|table| - 1]);
      var r := table[|table| - 1];
      if r.length > U64_MAX - r.base then t
      else Totals(if U64_MAX - t.bytes >= r.length then t.bytes + r.length else t.bytes,
                  Max(r.base + r.length, t.highestEnd))
  }

  // ---- requests and replies ----

  datatype Status =
    | Success | InvalidParameter | InvalidDeviceState | InsufficientResources | NotFound
    | BufferTooSmall | BufferUnavailable | InvalidDeviceRequest

  datatype Request = Request(runIndex: u32, length: u32, offsetWithinRun: u64)

  /** What a physical copy of `length` bytes did. */
  datatype Copy = Copy(copied: nat, status: i32, bytes: seq<byte>)

  datatype ReadReply = ReadReply(physicalAddress: u64, requestedLength: u32, bytesCopied: u32, copyStatus: i32,
                                 payload: seq<byte>)

  datatype Event =
    | Create(ranges: Option<RangeArray>)
    | QueryInfo(outputLength: nat, buffer: bool)
    | GetRanges(outputLength: nat, buffer: bool)
    | ReadRun(request: Request, buffer: bool, outputLength: nat, copy: (u64, u32) -> Copy)
    | EndSession(outputLength: nat, buffer: bool, current: Option<RangeArray>)
    | Unknown
    | Cleanup
    | Close

  datatype Reply =
    | Failed(status: Status)
    | Created
    | Info(runCount: u32, totalBytes: u64, highestPhysicalEnd: u64)
    | Ranges(table: seq<PhysicalRange>)
    | Read(read: ReadReply)
    | Ended(topologyChanged: bool, currentRunCount: u32)
    | Done

  const SIZE_QUERY_INFO: nat := 24
  const SIZE_MEMORY_RUN: nat := 16
  const SIZE_READ_RESULT: nat := 32
  const SIZE_END_RESULT: nat := 16

  /** A copy transfers no more than it was asked for, and says how much. */
  ghost predicate Copies(copy: (u64, u32) -> Copy) {
    forall address, length ::
      copy(address, length).copied <= length && |copy(address, length).bytes| == copy(address, length).copied
  }

  ghost predicate WellFormed(e: Event) {
    e.ReadRun? ==> Copies(e.copy)
  }

  // ---- the session as a machine ----

  /** The snapshot, while the file is open, and whether the session has been ended. */
  datatype Session = Session(snapshot: Option<seq<PhysicalRange>>, ended: bool)

  const IDLE := Session(None, false)

  predicate Serving(s: Session) {
    s.snapshot.Some? && !s.ended
  }

  /** A read stays inside the named run and inside the address domain. */
  predicate Admissible(table: seq<PhysicalRange>, maxTransfer: nat, capacity: int, r: Request) {
    && r.runIndex < |table|
    && 0 < r.length <= maxTransfer
    && r.length <= capacity
    && r.offsetWithinRun + r.length <= table[r.runIndex].length
    && r.offsetWithinRun <= U64_MAX - table[r.runIndex].base
  }

  function Step(maxTransfer: nat, s: Session, e: Event): (Session, Reply)
    requires WellFormed(e)
  {
    match e
    case Create(ranges) =>
      // The device is exclusive: no file is created while one is open.
      if s.snapshot.Some? then (s, Failed(InvalidDeviceState))
      else if ranges.None? then (IDLE, Failed(InsufficientResources))
      else if |TableOf(ranges.value)| == 0 then (IDLE, Failed(NotFound))
      else (Session(Some(TableOf(ranges.value)), false), Created)
    case QueryInfo(outputLength, buffer) =>
      if !Serving(s) then (s, Failed(InvalidDeviceState))
      else if outputLength < SIZE_QUERY_INFO then (s, Failed(BufferTooSmall))
      else if !buffer then (s, Failed(BufferUnavailable))
      else (s, InfoOf(s.snapshot.value))
    case GetRanges(outputLength, buffer) =>
      if !Serving(s) then (s, Failed(InvalidDeviceState))
      else if outputLength < |s.snapshot.value| * SIZE_MEMORY_RUN then (s, Failed(BufferTooSmall))
      else if !buffer then (s, Failed(BufferUnavailable))
      else (s, Ranges(s.snapshot.value))
    case ReadRun(request, buffer, outputLength, copy) =>
      if !Serving(s) then (s, Failed(InvalidDeviceState))
      else if !buffer then (s, Failed(BufferUnavailable))
      else if outputLength < SIZE_READ_RESULT then (s, Failed(BufferTooSmall))
      else if !Admissible(s.snapshot.value, maxTransfer, outputLength - SIZE_READ_RESULT, request) then
        (s, Failed(InvalidParameter))
      else (s, Read(Served(s.snapshot.value, request, copy)))
    case EndSession(outputLength, buffer, current) =>
      if outputLength < SIZE_END_RESULT then (s, Failed(BufferTooSmall))
      else if !buffer then (s, Failed(BufferUnavailable))
      else if !Serving(s) then (s, Failed(InvalidDeviceState))
      else if current.None? then (s, Failed(InsufficientResources))
      else (s.(ended := true),
            Ended(TableOf(current.value) != s.snapshot.value, |TableOf(current.value)|))
    case Unknown => (s, Failed(InvalidDeviceRequest))
    case Cleanup => (Session(None, true), Done)
    case Close => (s, Done)
  }

  function InfoOf(table: seq<PhysicalRange>): Reply {
    Info(Min(|table|, U32_MAX), Summarize(table).bytes, Summarize(table).highestEnd)
  }

  function Served(table: seq<PhysicalRange>, r: Request, copy: (u64, u32) -> Copy): ReadReply
    requires r.runIndex < |table| && r.offsetWithinRun <= U64_MAX - table[r.runIndex].base
    requires Copies(copy)
  {
    var address := table[r.runIndex].base + r.offsetWithinRun;
    var c := copy(address, r.length);
    ReadReply(address, r.length, c.copied, c.status, c.bytes)
  }

  // ---- every run of the machine ----

  function StateAfter(maxTransfer: nat, events: seq<Event>): Session
    requires forall i :: 0 <= i < |events| ==> WellFormed(events[i])
  {
    if |events| == 0 then IDLE
    else Step(maxTransfer, StateAfter(maxTransfer, events[..|events| - 1]), events[|events| - 1]).0
  }

  ghost predicate AllWellFormed(events: seq<Event>) {
    forall i :: 0 <= i < |events| ==> WellFormed(events[i])
  }

  /** The reply to event `k` of a run. */
  function ReplyAt(maxTransfer: nat, events: seq<Event>, k: nat): Reply
    requires AllWellFormed(events) && k < |events|
  {
    Step(maxTransfer, StateAfter(maxTransfer, events[..k]), events[k]).1
  }

  /** Event `c` froze this table, and nothing between `c` and `k` released it or ended the session. */
  ghost predicate FrozenSince(maxTransfer: nat, events: seq<Event>, c: nat, k: nat, table: seq<PhysicalRange>)
    requires AllWellFormed(events)
  {
    && c < k <= |events|
    && events[c].Create? && events[c].ranges.Some? && TableOf(events[c].ranges.value) == table
    && ReplyAt(maxTransfer, events, c) == Created
    && forall i :: c < i < k ==> Undisturbed(maxTransfer, events, i)
  }

  /** Event `i` neither opens, ends nor releases a session. */
  ghost predicate Undisturbed(maxTransfer: nat, events: seq<Event>, i: nat)
    requires AllWellFormed(events) && i < |events|
  {
    var reply := ReplyAt(maxTransfer, events, i);
    !reply.Created? && !reply.Ended? && !events[i].Cleanup?
  }

  lemma {:induction false} SameReplies(maxTransfer: nat, events: seq<Event>, k: nat, i: nat)
    requires AllWellFormed(events) && i < k <= |events|
    ensures ReplyAt(maxTransfer, events[..k], i) == ReplyAt(maxTransfer, events, i)
  {
    assert events[..k][..i] == events[..i];
  }

  lemma {:induction false} FrozenInLonger(maxTransfer: nat, events: seq<Event>, k: nat, c: nat, table: seq<PhysicalRange>)
    requires AllWellFormed(events) && k <= |events| && FrozenSince(maxTransfer, events[..k], c, k, table)
    ensures FrozenSince(maxTransfer, events, c, k, table)
  {
    SameReplies(maxTransfer, events, k, c);
    forall i | c < i < k
      ensures Undisturbed(maxTransfer, events, i)
    {
      SameReplies(maxTransfer, events, k, i);
      assert Undisturbed(maxTransfer, events[..k], i);
    }
  }

  lemma {:induction false} FrozenOneMore(maxTransfer: nat, events: seq<Event>, c: nat, k: nat, table: seq<PhysicalRange>)
    requires AllWellFormed(events) && k < |events| && FrozenSince(maxTransfer, events, c, k, table)
    requires Undisturbed(maxTransfer, events, k)
    ensures FrozenSince(maxTransfer, events, c, k + 1, table)
  {
  }

  /** Serving after an event means it was served before and not disturbed, or the event began it. */
  lemma {:induction false} ServingStep(maxTransfer: nat, s: Session, e: Event)
    requires WellFormed(e) && Serving(Step(maxTransfer, s, e).0)
    ensures var (s', reply) := Step(maxTransfer, s, e);
            if s.snapshot.Some? then
              Serving(s) && s'.snapshot == s.snapshot && !reply.Created? && !reply.Ended? && !e.Cleanup?
            else
              e.Create? && e.ranges.Some? && reply == Created && s'.snapshot == Some(TableOf(e.ranges.value))
  {
  }

  /** Whenever the session serves, some create froze exactly the table it serves and nothing has touched it since. */
  lemma {:induction false} ServingIsFrozen(maxTransfer: nat, events: seq<Event>)
    requires AllWellFormed(events)
    requires Serving(StateAfter(maxTransfer, events))
    ensures exists c :: FrozenSince(maxTransfer, events, c, |events|, StateAfter(maxTransfer, events).snapshot.value)
  {
    var n := |events| - 1;
    var before := StateAfter(maxTransfer, events[..n]);
    ServingStep(maxTransfer, before, events[n]);
    if before.snapshot.Some? {
      ServingIsFrozen(maxTransfer, events[..n]);
      var c :| FrozenSince(maxTransfer, events[..n], c, n, before.snapshot.value);
      FrozenInLonger(maxTransfer, events, n, c, before.snapshot.value);
      assert Undisturbed(maxTransfer, events, n);
      FrozenOneMore(maxTransfer, events, c, n, before.snapshot.value);
    } else {
      assert FrozenSince(maxTransfer, events, n, |events|, StateAfter(maxTransfer, events).snapshot.value);
    }
  }

  /** Every successful read of every run lies inside one run of a table that is still frozen and not ended. */
  lemma {:induction false} SuccessfulReadsAreFrozen(maxTransfer: nat, events: seq<Event>, k: nat)
    requires AllWellFormed(events) && k < |events| && ReplyAt(maxTransfer, events, k).Read?
    ensures exists c, table ::
              && FrozenSince(maxTransfer, events, c, k, table)
              && ReadInside(table, events[k].request, ReplyAt(maxTransfer, events, k).read)
  {
    var s := StateAfter(maxTransfer, events[..k]);
    ServingIsFrozen(maxTransfer, events[..k]);
    var table := s.snapshot.value;
    var c :| FrozenSince(maxTransfer, events[..k], c, k, table);
    FrozenInLonger(maxTransfer, events, k, c, table);
    assert ReadInside(table, events[k].request, ReplyAt(maxTransfer, events, k).read);
  }

  /** The reply is for the bytes the request names, all of them inside the named run. */
  predicate ReadInside(table: seq<PhysicalRange>, r: Request, reply: ReadReply) {
    && r.runIndex < |table|
    && reply.physicalAddress == table[r.runIndex].base + r.offsetWithinRun
    && reply.physicalAddress + r.length <= table[r.runIndex].base + table[r.runIndex].length
    && reply.requestedLength == r.length
    && reply.bytesCopied <= r.length
    && |reply.payload| == reply.bytesCopied
  }

  /** The end of a session reports a change exactly when the tables at its two ends differ, and there is one end. */
  lemma {:induction false} EndComparesWithSnapshot(maxTransfer: nat, events: seq<Event>, k: nat)
    requires AllWellFormed(events) && k < |events| && ReplyAt(maxTransfer, events, k).Ended?
    ensures exists c, table ::
              && FrozenSince(maxTransfer, events, c, k, table)
              && events[k].EndSession? && events[k].current.Some?
              && (ReplyAt(maxTransfer, events, k).topologyChanged <==> TableOf(events[k].current.value) != table)
              && ReplyAt(maxTransfer, events, k).currentRunCount == |TableOf(events[k].current.value)|
  {
    ServingIsFrozen(maxTransfer, events[..k]);
    var table := StateAfter(maxTransfer, events[..k]).snapshot.value;
    var c :| FrozenSince(maxTransfer, events[..k], c, k, table);
    FrozenInLonger(maxTransfer, events, k, c, table);
  }

  /** After the end, or after cleanup, nothing is served until the next successful create. */
  lemma {:induction false} NothingServedAfterEnd(maxTransfer: nat, events: seq<Event>, j: nat, k: nat)
    requires AllWellFormed(events) && j < k < |events|
    requires ReplyAt(maxTransfer, events, j).Ended? || events[j].Cleanup?
    requires forall i :: j < i < k ==> !ReplyAt(maxTransfer, events, i).Created?
    ensures var r := ReplyAt(maxTransfer, events, k); !r.Read? && !r.Info? && !r.Ranges? && !r.Ended?
  {
    NotServingUntilCreate(maxTransfer, events, j, k);
  }

  lemma {:induction false} StoppingStep(maxTransfer: nat, s: Session, e: Event)
    requires WellFormed(e)
    requires var reply := Step(maxTransfer, s, e).1; reply.Ended? || e.Cleanup? || (!Serving(s) && !reply.Created?)
    ensures !Serving(Step(maxTransfer, s, e).0)
  {
  }

  lemma {:induction false} NotServingUntilCreate(maxTransfer: nat, events: seq<Event>, j: nat, k: nat)
    requires AllWellFormed(events) && j < k <= |events|
    requires ReplyAt(maxTransfer, events, j).Ended? || events[j].Cleanup?
    requires forall i :: j < i < k ==> !ReplyAt(maxTransfer, events, i).Created?
    ensures !Serving(StateAfter(maxTransfer, events[..k]))
    decreases k
  {
    assert events[..k][..k - 1] == events[..k - 1];
    if j < k - 1 {
      NotServingUntilCreate(maxTransfer, events, j, k - 1);
      assert !ReplyAt(maxTransfer, events, k - 1).Created?;
    }
    StoppingStep(maxTransfer, StateAfter(maxTransfer, events[..k - 1]), events[k - 1]);
  }

  // ---- the callbacks ----

  /** Pool memory: only live allocations may be read or freed. */
  class Pool {
    var live: map<nat, seq<PhysicalRange>>
    var next: nat

    constructor ()
      ensures live == map[] && Fresh()
    {
      live, next := map[], 1;
    }

    ghost predicate Fresh()
      reads this
    {
      forall p :: p in live ==> p < next
    }

    method Allocate(contents: seq<PhysicalRange>) returns (pointer: nat)
      requires Fresh()
      modifies this
      ensures Fresh() && pointer !in old(live) && live == old(live)[pointer := contents]
    {
      pointer := next;
      live := live[pointer := contents];
      next := next + 1;
    }

    method Free(pointer: nat)
      requires pointer in live && Fresh()
      modifies this
      ensures Fresh() && live == old(live) - {pointer}
    {
      live := live - {pointer};
    }

    method Load(pointer: nat, index: nat) returns (entry: PhysicalRange)
      requires pointer in live && index < |live[pointer]|
      ensures entry == live[pointer][index]
    {
      entry := live[pointer][index];
    }
  }

  lemma {:induction false} TableStopsAtTerminator(a: seq<PhysicalRange>, n: nat)
    requires n < |a| && a[n] == TERMINATOR && TERMINATOR !in a[..n]
    ensures |TableOf(a)| == n
  {
    if n > 0 {
      assert a[0] in a[..n];
      assert a[1..][..n - 1] == a[..n][1..];
      TableStopsAtTerminator(a[1..], n - 1);
    }
  }

  lemma {:induction false} TerminatorAhead(a: seq<PhysicalRange>, n: nat)
    requires TERMINATOR in a && n <= |a| && TERMINATOR !in a[..n]
    ensures n < |a|
  {
    var k :| 0 <= k < |a| && a[k] == TERMINATOR;
    assert forall i :: 0 <= i < n ==> a[i] in a[..n];
  }

  /** The file context: the snapshot it points to, and what was computed from it. */
  class FileContext {
    const pool: Pool
    const maxTransfer: nat
    var ranges: Option<nat>
    var runCount: u32
    var totalBytes: u64
    var highestPhysicalEnd: u64
    var sessionEnded: bool

    constructor (maxTransfer: nat)
      ensures Valid() && Abstract() == IDLE && fresh(pool) && this.maxTransfer == maxTransfer
    {
      pool := new Pool();
      this.maxTransfer := maxTransfer;
      ranges, runCount, totalBytes, highestPhysicalEnd, sessionEnded := None, 0, 0, 0, false;
    }

    /** One allocation is live if the context points to a snapshot, none otherwise. */
    ghost predicate Valid()
      reads this, pool
    {
      && pool.Fresh()
      && pool.live.Keys == (if ranges.Some? then {ranges.value} else {})
      && (ranges.Some? ==>
            && TERMINATOR in pool.live[ranges.value] && |pool.live[ranges.value]| <= U32_MAX
            && Holds(TableOf(pool.live[ranges.value])))
    }

    ghost predicate Holds(table: seq<PhysicalRange>)
      reads this
    {
      |table| == runCount && runCount > 0 && Summarize(table) == Totals(totalBytes, highestPhysicalEnd)
    }

    ghost function Abstract(): Session
      requires Valid()
      reads this, pool
    {
      if ranges.Some? then Session(Some(TableOf(pool.live[ranges.value])), sessionEnded)
      else Session(None, sessionEnded)
    }

    /** Entries up to the terminator. */
    method CountRanges(pointer: nat) returns (count: u32)
      requires pointer in pool.live && TERMINATOR in pool.live[pointer] && |pool.live[pointer]| <= U32_MAX
      ensures count == |TableOf(pool.live[pointer])|
    {
      count := 0;
      ghost var a := pool.live[pointer];
      var entry := pool.Load(pointer, 0);
      while entry != TERMINATOR
        invariant count < |a| && entry == a[count] && TERMINATOR !in a[..count]
        decreases |a| - count
      {
        assert a[..count + 1] == a[..count] + [a[count]];
        TerminatorAhead(a, count + 1);
        count := count + 1;
        entry := pool.Load(pointer, count);
      }
      TableStopsAtTerminator(a, count);
    }

    method SummarizeRanges(pointer: nat, count: u32) returns (total: u64, highest: u64)
      requires pointer in pool.live && count == |TableOf(pool.live[pointer])|
      ensures Totals(total, highest) == Summarize(TableOf(pool.live[pointer]))
    {
      total, highest := 0, 0;
      ghost var table := TableOf(pool.live[pointer]);
      for i := 0 to count
        invariant Totals(total, highest) == Summarize(table[..i])
      {
        assert table[..i + 1][..i] == table[..i];
        var entry := pool.Load(pointer, i);
        assert entry == table[i];
        if !(entry.length > U64_MAX - entry.base) {
          var end := entry.base + entry.length;
          if U64_MAX - total >= entry.length {
            total := total + entry.length;
          }
          if end > highest {
            highest := end;
          }
        }
      }
      assert table[..count] == table;
    }

    method RangesEqual(a: nat, countA: u32, b: nat, countB: u32) returns (equal: bool)
      requires a in pool.live && countA == |TableOf(pool.live[a])|
      requires b in pool.live && countB == |TableOf(pool.live[b])|
      ensures equal <==> TableOf(pool.live[a]) == TableOf(pool.live[b])
    {
      if countA != countB {
        return false;
      }
      ghost var tableA, tableB := TableOf(pool.live[a]), TableOf(pool.live[b]);
      for i := 0 to countA
        invariant tableA[..i] == tableB[..i]
      {
        var x := pool.Load(a, i);
        var y := pool.Load(b, i);
        assert x == tableA[i] && y == tableB[i];
        if x.base != y.base || x.length != y.length {
          return false;
        }
      }
      assert tableA == tableA[..countA] == tableB[..countA] == tableB;
      return true;
    }

    method SessionBegin(source: Option<RangeArray>) returns (reply: Reply)
      requires Valid() && ranges.None? && !sessionEnded
      modifies this, pool
      ensures Valid()
      ensures (Abstract(), reply) == Step(maxTransfer, IDLE, Create(source))
    {
      if source.None? {
        return Failed(InsufficientResources);
      }
      var pointer := pool.Allocate(source.value);
      var count := CountRanges(pointer);
      if count == 0 {
        pool.Free(pointer);
        return Failed(NotFound);
      }
      var total, highest := SummarizeRanges(pointer, count);
      ranges, runCount, sessionEnded := Some(pointer), count, false;
      totalBytes, highestPhysicalEnd := total, highest;
      return Created;
    }

    method SessionRelease()
      requires Valid()
      modifies this, pool
      ensures Valid() && Abstract() == Session(None, true)
    {
      var toFree := ranges;
      ranges := None;
      if toFree.Some? {
        pool.Free(toFree.value);
      }
      runCount, totalBytes, highestPhysicalEnd, sessionEnded := 0, 0, 0, true;
    }

    method SessionEnd(source: Option<RangeArray>) returns (reply: Reply)
      requires Valid()
      modifies this, pool
      ensures Valid()
      ensures (Abstract(), reply) == Step(maxTransfer, old(Abstract()), EndSession(SIZE_END_RESULT, true, source))
    {
      if ranges.None? || sessionEnded {
        return Failed(InvalidDeviceState);
      }
      if source.None? {
        return Failed(InsufficientResources);
      }
      ghost var was := pool.live;
      var current := pool.Allocate(source.value);
      var currentCount := CountRanges(current);
      var equal := RangesEqual(ranges.value, runCount, current, currentCount);
      pool.Free(current);
      assert pool.live == was;
      sessionEnded := true;
      return Ended(!equal, currentCount);
    }

    method CopyRun(request: Request, capacity: nat, copy: (u64, u32) -> Copy) returns (reply: Reply)
      requires Valid() && Copies(copy)
      ensures reply == Step(maxTransfer, Abstract(), ReadRun(request, true, SIZE_READ_RESULT + capacity, copy)).1
    {
      if ranges.None? || sessionEnded {
        return Failed(InvalidDeviceState);
      }
      if request.runIndex >= runCount || request.length == 0 || request.length > maxTransfer
         || request.length > capacity {
        return Failed(InvalidParameter);
      }
      var entry := pool.Load(ranges.value, request.runIndex);
      assert entry == TableOf(pool.live[ranges.value])[request.runIndex];
      if request.offsetWithinRun > entry.length || request.length > entry.length - request.offsetWithinRun
         || request.offsetWithinRun > U64_MAX - entry.base {
        return Failed(InvalidParameter);
      }
      var physicalAddress := entry.base + request.offsetWithinRun;
      var c := copy(physicalAddress, request.length);
      return Read(ReadReply(physicalAddress, request.length, c.copied, c.status, c.bytes));
    }

    method HandleGetRanges(outputLength: nat, buffer: bool) returns (reply: Reply)
      requires Valid()
      ensures reply == Step(maxTransfer, Abstract(), GetRanges(outputLength, buffer)).1
    {
      if ranges.None? || sessionEnded {
        return Failed(InvalidDeviceState);
      }
      if outputLength < runCount * SIZE_MEMORY_RUN {
        return Failed(BufferTooSmall);
      }
      if !buffer {
        return Failed(BufferUnavailable);
      }
      ghost var table := TableOf(pool.live[ranges.value]);
      var out: seq<PhysicalRange> := [];
      for i := 0 to runCount
        invariant out == table[..i]
      {
        var entry := pool.Load(ranges.value, i);
        assert entry == table[i];
        out := out + [entry];
      }
      return Ranges(out);
    }

    /** One callback under the device lock: answers as the machine does and keeps the pool in order. */
    method Dispatch(e: Event) returns (reply: Reply)
      requires Valid() && WellFormed(e)
      modifies this, pool
      ensures Valid()
      ensures (Abstract(), reply) == Step(maxTransfer, old(Abstract()), e)
    {
      match e
      case Create(source) =>
        if ranges.Some? {
          return Failed(InvalidDeviceState);
        }
        runCount, totalBytes, highestPhysicalEnd, sessionEnded := 0, 0, 0, false;
        reply := SessionBegin(source);
      case QueryInfo(outputLength, buffer) =>
        if ranges.None? || sessionEnded {
          return Failed(InvalidDeviceState);
        }
        if outputLength < SIZE_QUERY_INFO {
          return Failed(BufferTooSmall);
        }
        if !buffer {
          return Failed(BufferUnavailable);
        }
        return Info(runCount, totalBytes, highestPhysicalEnd);
      case GetRanges(outputLength, buffer) =>
        reply := HandleGetRanges(outputLength, buffer);
      case ReadRun(request, buffer, outputLength, copy) =>
        if ranges.None? || sessionEnded {
          return Failed(InvalidDeviceState);
        }
        if !buffer {
          return Failed(BufferUnavailable);
        }
        if outputLength < SIZE_READ_RESULT {
          return Failed(BufferTooSmall);
        }
        reply := CopyRun(request, outputLength - SIZE_READ_RESULT, copy);
      case EndSession(outputLength, buffer, source) =>
        if outputLength < SIZE_END_RESULT {
          return Failed(BufferTooSmall);
        }
        if !buffer {
          return Failed(BufferUnavailable);
        }
        reply := SessionEnd(source);
      case Unknown =>
        return Failed(InvalidDeviceRequest);
      case Cleanup =>
        SessionRelease();
        return Done;
      case Close =>
        return Done;
    }
  }
}
