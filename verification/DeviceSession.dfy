/**
 User mode's view of the driver: the session object that validates and sorts the run table and
 checks every response, and what a log of calls served by the driver looks like.
 */
module DeviceSessions {
  import opened Words
  import opened Runs
  import opened Engine
  import opened Devices
  import Driver

  type PhysicalRange = Driver.PhysicalRange

  const MAX_RUN_COUNT: nat := 1024 * 1024

  // ---- normalisation of the run table ----

  /** The driver's entries with their positions. */
  function Indexed(table: seq<PhysicalRange>): (runs: seq<MemoryRun>)
    requires |table| <= U32_MAX
    ensures |runs| == |table|
    ensures forall i :: 0 <= i < |runs| ==> runs[i] == MemoryRun(i, table[i].base, table[i].length)
  {
    seq(|table|, i requires 0 <= i < |table| => MemoryRun(i, table[i].base, table[i].length))
  }

  ghost predicate SortedByBase(runs: seq<MemoryRun>) {
    forall i, j :: 0 <= i < j < |runs| ==> runs[i].base <= runs[j].base
  }

  function Insert(runs: seq<MemoryRun>, r: MemoryRun): seq<MemoryRun> {
    if |runs| == 0 || runs[|runs| - 1].base <= r.base then runs + [r]
    else Insert(runs[..|runs| - 1], r) + [runs[|runs| - 1]]
  }

  /** The library sort, by base address. */
  function SortByBase(runs: seq<MemoryRun>): seq<MemoryRun> {
    if |runs| == 0 then [] else Insert(SortByBase(runs[..|runs| - 1]), runs[|runs| - 1])
  }

  lemma {:induction false} InitAndLast(runs: seq<MemoryRun>)
    requires |runs| > 0
    ensures multiset(runs) == multiset(runs[..|runs| - 1]) + multiset{runs[|runs| - 1]}
    ensures multiset(runs[..|runs| - 1]) == multiset(runs) - multiset{runs[|runs| - 1]}
  {
    assert runs == runs[..|runs| - 1] + [runs[|runs| - 1]];
  }

  lemma {:induction false} SameSize(a: seq<MemoryRun>, b: seq<MemoryRun>)
    requires multiset(a) == multiset(b)
    ensures |a| == |b|
  {
    assert |a| == |multiset(a)| && |b| == |multiset(b)|;
  }

  lemma {:induction false} InsertPermutes(runs: seq<MemoryRun>, r: MemoryRun)
    ensures multiset(Insert(runs, r)) == multiset(runs) + multiset{r}
  {
    if !(|runs| == 0 || runs[|runs| - 1].base <= r.base) {
      InsertPermutes(runs[..|runs| - 1], r);
      InitAndLast(runs);
    }
  }

  /** All bases are at most `bound`. */
  ghost predicate BasesUpTo(runs: seq<MemoryRun>, bound: u64) {
    forall i :: 0 <= i < |runs| ==> runs[i].base <= bound
  }

  lemma {:induction false} InsertSorts(runs: seq<MemoryRun>, r: MemoryRun, bound: u64)
    requires SortedByBase(runs)
    ensures SortedByBase(Insert(runs, r))
    ensures BasesUpTo(runs, bound) && r.base <= bound ==> BasesUpTo(Insert(runs, r), bound)
  {
    if !(|runs| == 0 || runs[|runs| - 1].base <= r.base) {
      var init, last := runs[..|runs| - 1], runs[|runs| - 1];
      InsertSorts(init, r, last.base);
      InsertSorts(init, r, bound);
    }
  }

  lemma {:induction false} SortSorts(runs: seq<MemoryRun>)
    ensures SortedByBase(SortByBase(runs)) && multiset(SortByBase(runs)) == multiset(runs)
  {
    if |runs| > 0 {
      SortSorts(runs[..|runs| - 1]);
      InsertSorts(SortByBase(runs[..|runs| - 1]), runs[|runs| - 1], 0);
      InsertPermutes(SortByBase(runs[..|runs| - 1]), runs[|runs| - 1]);
      InitAndLast(runs);
    }
  }

  /** A base-ordered, pairwise disjoint permutation of the driver's table, without empty or overflowing runs. */
  ghost predicate Orders(table: seq<PhysicalRange>, runs: seq<MemoryRun>) {
    && 0 < |table| <= MAX_RUN_COUNT
    && multiset(runs) == multiset(Indexed(table))
    && Sane(runs) && SortedDisjoint(runs)
  }

  /** What an accepted query result is to the driver's table. */
  ghost predicate Normalizes(table: seq<PhysicalRange>, t: Topology) {
    && Orders(table, t.runs)
    && Driver.Totals(t.totalBytes, t.highestEnd) == Driver.Summarize(table)
  }

  lemma {:induction false} LastsAgree(a: seq<MemoryRun>, b: seq<MemoryRun>)
    requires multiset(a) == multiset(b) && SortedByBase(a) && Sane(b) && SortedDisjoint(b)
    requires |a| == |b| > 0
    ensures a[|a| - 1] == b[|b| - 1]
  {
    var n := |a| - 1;
    assert a[n] in multiset(b) && b[n] in multiset(a);
    var i :| 0 <= i <= n && b[i] == a[n];
    var j :| 0 <= j <= n && a[j] == b[n];
    assert a[j].base <= a[n].base;
    assert b[i].length > 0;
  }

  lemma {:induction false} SameInits(a: seq<MemoryRun>, b: seq<MemoryRun>)
    requires multiset(a) == multiset(b) && |a| == |b| > 0 && a[|a| - 1] == b[|b| - 1]
    ensures multiset(a[..|a| - 1]) == multiset(b[..|b| - 1])
  {
    InitAndLast(a);
    InitAndLast(b);
  }

  lemma {:induction false} SameInitSameLast(a: seq<MemoryRun>, b: seq<MemoryRun>)
    requires |a| == |b| > 0 && a[..|a| - 1] == b[..|b| - 1] && a[|a| - 1] == b[|b| - 1]
    ensures a == b
  {
    assert a == a[..|a| - 1] + [a[|a| - 1]];
    assert b == b[..|b| - 1] + [b[|b| - 1]];
  }

  lemma {:induction false} PrefixesQualify(a: seq<MemoryRun>, b: seq<MemoryRun>, n: nat)
    requires SortedByBase(a) && Sane(b) && SortedDisjoint(b) && n <= |a| && n <= |b|
    ensures SortedByBase(a[..n]) && Sane(b[..n]) && SortedDisjoint(b[..n])
  {
  }

  /** A strictly ordered permutation of an ordered sequence is that sequence. */
  lemma {:induction false} SortedPermutationUnique(a: seq<MemoryRun>, b: seq<MemoryRun>)
    requires multiset(a) == multiset(b) && SortedByBase(a) && Sane(b) && SortedDisjoint(b)
    ensures a == b
    decreases |a|
  {
    SameSize(a, b);
    if |a| > 0 {
      var n := |a| - 1;
      LastsAgree(a, b);
      SameInits(a, b);
      PrefixesQualify(a, b, n);
      SortedPermutationUnique(a[..n], b[..n]);
      SameInitSameLast(a, b);
    }
  }

  /** The order equal bases are left in by the sort cannot show: there is one result at most. */
  lemma {:induction false} NormalizationUnique(table: seq<PhysicalRange>, t: Topology, u: Topology)
    requires Normalizes(table, t) && Normalizes(table, u)
    ensures t == u
  {
    assert SortedByBase(t.runs);
    SortedPermutationUnique(t.runs, u.runs);
  }

  /** Each run is the driver's entry at its index, and the indexes are 0 to n-1, each once. */
  lemma {:induction false} NormalizedRunsAreEntries(table: seq<PhysicalRange>, t: Topology)
    requires Normalizes(table, t)
    ensures |t.runs| == |table|
    ensures forall i :: 0 <= i < |t.runs| ==>
              && t.runs[i].driverIndex < |table|
              && t.runs[i] == Indexed(table)[t.runs[i].driverIndex]
    ensures forall i, j :: 0 <= i < j < |t.runs| ==> t.runs[i].driverIndex != t.runs[j].driverIndex
  {
    var indexed := Indexed(table);
    SameSize(t.runs, indexed);
    forall i | 0 <= i < |t.runs|
      ensures t.runs[i].driverIndex < |table| && t.runs[i] == indexed[t.runs[i].driverIndex]
    {
      assert t.runs[i] in multiset(indexed);
      var k :| 0 <= k < |indexed| && indexed[k] == t.runs[i];
    }
    forall i, j | 0 <= i < j < |t.runs|
      ensures t.runs[i].driverIndex != t.runs[j].driverIndex
    {
      assert t.runs[i].End() <= t.runs[j].base && t.runs[i].length > 0;
    }
  }

  // ---- the driver's totals are exact for a table user mode accepts ----

  function TableSum(table: seq<PhysicalRange>): nat {
    if |table| == 0 then 0 else TableSum(table[..|table| - 1]) + table[|table| - 1].length
  }

  function TableHigh(table: seq<PhysicalRange>): nat {
    if |table| == 0 then 0
    else Max(TableHigh(table[..|table| - 1]), table[|table| - 1].base + table[|table| - 1].length)
  }

  /** The skipping sum skips nothing when the entries and their sum fit in 64 bits. */
  lemma {:induction false} SummarizeExact(table: seq<PhysicalRange>)
    requires TableSum(table) <= U64_MAX
    requires forall i :: 0 <= i < |table| ==> table[i].base + table[i].length <= U64_MAX
    ensures Driver.Summarize(table).bytes == TableSum(table)
    ensures Driver.Summarize(table).highestEnd == TableHigh(table)
  {
    if |table| > 0 {
      SummarizeExact(table[..|table| - 1]);
    }
  }

  lemma {:induction false} IndexedPrefix(table: seq<PhysicalRange>)
    requires 0 < |table| <= U32_MAX
    ensures Indexed(table)[..|table| - 1] == Indexed(table[..|table| - 1])
  {
  }

  lemma {:induction false} IndexedTotals(table: seq<PhysicalRange>)
    requires |table| <= U32_MAX
    ensures SumLengths(Indexed(table)) == TableSum(table) && HighestEnd(Indexed(table)) == TableHigh(table)
  {
    if |table| > 0 {
      IndexedTotals(table[..|table| - 1]);
      IndexedPrefix(table);
    }
  }

  function Removed(runs: seq<MemoryRun>, i: nat): seq<MemoryRun>
    requires i < |runs|
  {
    runs[..i] + runs[i + 1..]
  }

  lemma {:induction false} RemovedMultiset(runs: seq<MemoryRun>, i: nat)
    requires i < |runs|
    ensures multiset(Removed(runs, i)) == multiset(runs) - multiset{runs[i]}
  {
    assert runs == runs[..i] + [runs[i]] + runs[i + 1..];
  }

  lemma {:induction false} RemovedTotals(runs: seq<MemoryRun>, i: nat)
    requires i < |runs|
    ensures SumLengths(runs) == SumLengths(Removed(runs, i)) + runs[i].length
    ensures HighestEnd(runs) == Max(HighestEnd(Removed(runs, i)), runs[i].End())
    decreases |runs|
  {
    var n := |runs| - 1;
    var rest := Removed(runs, i);
    if i < n {
      RemovedTotals(runs[..n], i);
      assert rest[..n - 1] == Removed(runs[..n], i);
      assert rest[n - 1] == runs[n];
    } else {
      assert rest == runs[..n];
    }
  }

  /** Sum and highest end do not depend on the order. */
  lemma {:induction false} TotalsIgnoreOrder(a: seq<MemoryRun>, b: seq<MemoryRun>)
    requires multiset(a) == multiset(b)
    ensures SumLengths(a) == SumLengths(b) && HighestEnd(a) == HighestEnd(b)
    decreases |a|
  {
    SameSize(a, b);
    if |a| > 0 {
      var n := |a| - 1;
      assert a[n] in multiset(b);
      var i :| 0 <= i < |b| && b[i] == a[n];
      RemovedMultiset(b, i);
      RemovedTotals(b, i);
      InitAndLast(a);
      TotalsIgnoreOrder(a[..n], Removed(b, i));
    }
  }

  /** The totals of an accepted query: the sum of the runs, and the end of the last one. */
  lemma {:induction false} NormalizedTotals(table: seq<PhysicalRange>, t: Topology)
    requires Normalizes(table, t)
    ensures |t.runs| > 0
    ensures t.totalBytes == SumLengths(t.runs)
    ensures t.highestEnd == t.runs[|t.runs| - 1].End()
    ensures 0 < t.totalBytes <= t.highestEnd
  {
    NormalizedRunsAreEntries(table, t);
    TotalsIgnoreOrder(t.runs, Indexed(table));
    IndexedTotals(table);
    SumWithinLastEnd(t.runs);
    HighestEndIsLastEnd(t.runs);
    forall i | 0 <= i < |table|
      ensures table[i].base + table[i].length <= U64_MAX
    {
      assert Indexed(table)[i] in multiset(t.runs);
      var k :| 0 <= k < |t.runs| && t.runs[k] == Indexed(table)[i];
    }
    SummarizeExact(table);
    assert t.runs[..|t.runs|] == t.runs;
    assert t.runs[|t.runs| - 1].length > 0;
  }

  // ---- what the driver serves ----

  /** What `Query` must answer for this table. */
  ghost predicate QueryVerdict(table: seq<PhysicalRange>, answer: Option<Topology>) {
    match answer
    case Some(t) => Normalizes(table, t)
    case None => forall t :: !Normalizes(table, t)
  }

  function DriverRequest(r: ReadRequest): Driver.Request {
    Driver.Request(r.runIndex, r.length, r.offset)
  }

  /** What `Read` must answer for this table: the bytes the request names, or nothing if it is not admissible. */
  ghost predicate ReadVerdict(table: seq<PhysicalRange>, maxTransfer: nat, r: ReadRequest, answer: Option<ReadResult>) {
    if Driver.Admissible(table, maxTransfer, r.length, DriverRequest(r)) then
      answer.Some? && ValidateReadResult(answer.value, table[r.runIndex].base + r.offset, r.length)
    else answer.None?
  }

  ghost predicate EndedBefore(log: seq<Call>, k: nat) {
    exists j :: 0 <= j < k && j < |log| && log[j].EndCall? && log[j].changed.Some?
  }

  ghost predicate ServedCall(table: seq<PhysicalRange>, current: seq<PhysicalRange>, maxTransfer: nat,
                             ended: bool, call: Call) {
    match call
    case QueryCall(answer) => if ended then answer.None? else QueryVerdict(table, answer)
    case ReadCall(request, answer) => if ended then answer.None? else ReadVerdict(table, maxTransfer, request, answer)
    case EndCall(answer) => answer == if ended then None else Some(current != table)
  }

  /** Call `k` of the log was answered as it must be. */
  ghost predicate Granted(table: seq<PhysicalRange>, current: seq<PhysicalRange>, maxTransfer: nat, log: seq<Call>, k: nat)
    requires k < |log|
  {
    ServedCall(table, current, maxTransfer, EndedBefore(log, k), log[k])
  }

  /** The call came back without an answer. */
  predicate Unanswered(call: Call) {
    match call
    case QueryCall(answer) => answer.None?
    case ReadCall(_, answer) => answer.None?
    case EndCall(answer) => answer.None?
  }

  /**
   A log of calls to one session whose table was frozen, and compared with `current` at its end.  The
   system may have refused any of the calls.
   */
  ghost predicate ServedByDriver(table: seq<PhysicalRange>, current: seq<PhysicalRange>, maxTransfer: nat, log: seq<Call>) {
    forall k :: 0 <= k < |log| ==> Granted(table, current, maxTransfer, log, k) || Unanswered(log[k])
  }

  /** The system refused none of the calls. */
  ghost predicate NoneRefused(table: seq<PhysicalRange>, current: seq<PhysicalRange>, maxTransfer: nat, log: seq<Call>) {
    forall k :: 0 <= k < |log| ==> Granted(table, current, maxTransfer, log, k)
  }

  lemma {:induction false} ServedOneMore(table: seq<PhysicalRange>, current: seq<PhysicalRange>, maxTransfer: nat,
                                         log: seq<Call>, call: Call)
    requires ServedByDriver(table, current, maxTransfer, log)
    requires ServedCall(table, current, maxTransfer, EndedBefore(log, |log|), call) || Unanswered(call)
    ensures ServedByDriver(table, current, maxTransfer, log + [call])
    ensures Granted(table, current, maxTransfer, log + [call], |log|)
       <==> ServedCall(table, current, maxTransfer, EndedBefore(log, |log|), call)
    ensures EndedBefore(log + [call], |log| + 1) <==>
            EndedBefore(log, |log|) || (call.EndCall? && call.changed.Some?)
  {
    var longer := log + [call];
    forall k | 0 <= k <= |log|
      ensures EndedBefore(longer, k) <==> EndedBefore(log, k)
    {
      if EndedBefore(log, k) {
        var j :| 0 <= j < k && j < |log| && log[j].EndCall? && log[j].changed.Some?;
        assert longer[j] == log[j];
      }
      if EndedBefore(longer, k) {
        var j :| 0 <= j < k && j < |longer| && longer[j].EndCall? && longer[j].changed.Some?;
        assert log[j] == longer[j];
      }
    }
    if EndedBefore(log, |log|) {
      var j :| 0 <= j < |log| && log[j].EndCall? && log[j].changed.Some?;
      assert longer[j] == log[j];
    }
    if call.EndCall? && call.changed.Some? {
      assert longer[|log|] == call;
    }
    if EndedBefore(longer, |log| + 1) && !(call.EndCall? && call.changed.Some?) {
      var j :| 0 <= j < |longer| && longer[j].EndCall? && longer[j].changed.Some?;
      assert log[j] == longer[j];
    }
  }

  /**
   An oracle that answers like a session on this table, for as long as the session has not been ended and
   the system does not refuse the call.
   */
  ghost predicate AnswersLikeDriver(oracle: Oracle, table: seq<PhysicalRange>, current: seq<PhysicalRange>,
                                    maxTransfer: nat)
  {
    forall before, call :: oracle.Gives(before, call) ==>
      ServedCall(table, current, maxTransfer, EndedBefore(before, |before|), call) || Unanswered(call)
  }

  /** The system never refuses a call. */
  ghost predicate NeverRefuses(oracle: Oracle, table: seq<PhysicalRange>, current: seq<PhysicalRange>, maxTransfer: nat) {
    forall before, call :: oracle.Gives(before, call) ==>
      ServedCall(table, current, maxTransfer, EndedBefore(before, |before|), call)
  }

  /** What such an oracle explains was served by the driver, from any point at which the session was live. */
  lemma {:induction false} LikeDriverIsServed(oracle: Oracle, table: seq<PhysicalRange>, current: seq<PhysicalRange>,
                                              maxTransfer: nat, log: seq<Call>, from: nat)
    requires AnswersLikeDriver(oracle, table, current, maxTransfer) && oracle.Explains(log)
    requires from <= |log| && !EndedBefore(log, from)
    ensures ServedByDriver(table, current, maxTransfer, log[from..])
    ensures NeverRefuses(oracle, table, current, maxTransfer) ==> NoneRefused(table, current, maxTransfer, log[from..])
  {
    var calls := log[from..];
    forall k | 0 <= k < |calls|
      ensures Granted(table, current, maxTransfer, calls, k) || Unanswered(calls[k])
      ensures NeverRefuses(oracle, table, current, maxTransfer) ==> Granted(table, current, maxTransfer, calls, k)
    {
      assert oracle.Gives(log[..from + k], log[from + k]);
      SameEnds(log, from, k);
    }
  }

  lemma {:induction false} SameEnds(log: seq<Call>, from: nat, k: nat)
    requires from + k <= |log| && !EndedBefore(log, from)
    ensures EndedBefore(log[..from + k], from + k) <==> EndedBefore(log[from..], k)
  {
    var front, calls := log[..from + k], log[from..];
    if EndedBefore(front, from + k) {
      var j :| 0 <= j < from + k && front[j].EndCall? && front[j].changed.Some?;
      assert log[j] == front[j];
      assert calls[j - from] == log[j];
    }
    if EndedBefore(calls, k) {
      var j :| 0 <= j < k && j < |calls| && calls[j].EndCall? && calls[j].changed.Some?;
      assert front[from + j] == calls[j];
    }
  }

  /** The answer to a read: what the copy returns, or nothing if the driver does not admit the request. */
  function ReadAnswer(table: seq<PhysicalRange>, maxTransfer: nat, r: ReadRequest, copy: (u64, u32) -> Driver.Copy)
    : Option<ReadResult>
    requires Driver.Copies(copy)
  {
    if Driver.Admissible(table, maxTransfer, r.length, DriverRequest(r)) then
      var reply := Driver.Served(table, DriverRequest(r), copy);
      Some(ReadResult(reply.physicalAddress, reply.requestedLength, reply.bytesCopied, reply.copyStatus, reply.payload))
    else None
  }

  /**
   Every table, every table at the end, every memory, however its contents and its failing pages change
   from call to call, and every way of refusing calls has such an oracle.
   */
  lemma {:induction false} EveryMemoryHasOracle(table: seq<PhysicalRange>, current: seq<PhysicalRange>, maxTransfer: nat,
                                                memory: seq<Call> -> (u64, u32) -> Driver.Copy,
                                                refused: seq<Call> -> bool) returns (oracle: Oracle)
    requires forall before :: Driver.Copies(memory(before))
    ensures AnswersLikeDriver(oracle, table, current, maxTransfer)
    ensures (forall before :: !refused(before)) ==> NeverRefuses(oracle, table, current, maxTransfer)
    ensures forall before, r :: oracle.onRead(before, r) ==
              if refused(before) || EndedBefore(before, |before|) then None
              else ReadAnswer(table, maxTransfer, r, memory(before))
  {
    var topology: Option<Topology> := None;
    if t :| Normalizes(table, t) {
      topology := Some(t);
    }
    oracle := Oracle(
      before => if refused(before) || EndedBefore(before, |before|) then None else topology,
      (before, r) => if refused(before) || EndedBefore(before, |before|) then None
                     else ReadAnswer(table, maxTransfer, r, memory(before)),
      before => if refused(before) || EndedBefore(before, |before|) then None else Some(current != table));
    forall before, call | oracle.Gives(before, call)
      ensures ServedCall(table, current, maxTransfer, EndedBefore(before, |before|), call)
              || (refused(before) && Unanswered(call))
    {
      match call
      case QueryCall(_) =>
      case ReadCall(_, _) =>
      case EndCall(_) =>
    }
  }

  // ---- the session object ----

  class DeviceSession {
    const driver: Driver.FileContext
    /** Physical memory as it is at each copy. */
    const memory: nat -> (u64, u32) -> Driver.Copy
    /** Whether the system hands the driver its buffers at each request. */
    const buffers: nat -> bool
    /** The ranges the memory manager reports at each request, if it reports any. */
    const rangesAtEnd: nat -> Option<Driver.RangeArray>
    var clock: nat
    ghost const table: seq<PhysicalRange>
    ghost const current: seq<PhysicalRange>
    ghost var log: seq<Call>

    ghost predicate Valid()
      reads this, driver, driver.pool
    {
      && driver.Valid()
      && driver.Abstract() == Driver.Session(Some(table), EndedBefore(log, |log|))
      && (forall k :: Driver.Copies(memory(k)))
      && (forall k :: rangesAtEnd(k).Some? ==> Driver.TableOf(rangesAtEnd(k).value) == current)
      && 0 < |table| <= U32_MAX
      && ServedByDriver(table, current, driver.maxTransfer, log)
    }

    /** At every request since `from` the system handed over the buffers. */
    ghost predicate Supplied(from: nat)
      reads this
    {
      forall k :: from <= k < clock ==> buffers(k)
    }

    /** The last call was answered as it must be. */
    ghost predicate LastGranted()
      reads this
    {
      |log| > 0 && Granted(table, current, driver.maxTransfer, log, |log| - 1)
    }

    /** A session on a file context that has just frozen its table. */
    constructor (driver: Driver.FileContext, memory: nat -> (u64, u32) -> Driver.Copy, buffers: nat -> bool,
                 rangesAtEnd: nat -> Option<Driver.RangeArray>,
                 ghost table: seq<PhysicalRange>, ghost current: seq<PhysicalRange>)
      requires driver.Valid() && driver.Abstract() == Driver.Session(Some(table), false)
      requires forall k :: Driver.Copies(memory(k))
      requires forall k :: rangesAtEnd(k).Some? ==> Driver.TableOf(rangesAtEnd(k).value) == current
      ensures Valid() && log == [] && this.driver == driver && this.table == table && this.current == current
    {
      this.driver, this.memory, this.buffers, this.rangesAtEnd := driver, memory, buffers, rangesAtEnd;
      this.table, this.current := table, current;
      clock := 0;
      log := [];
      new;
      assert driver.Abstract().snapshot == Some(table);
    }

    /** Whether the next request gets its buffers. */
    method Buffered() returns (buffer: bool)
      modifies this`clock
      ensures clock == old(clock) + 1 && buffer == buffers(old(clock))
    {
      buffer := buffers(clock);
      clock := clock + 1;
    }

    /** Two requests; either may be refused. */
    method FetchTopology() returns (answer: Option<Topology>)
      requires Valid()
      modifies this`clock, driver, driver.pool
      ensures driver.Valid() && driver.Abstract() == old(driver.Abstract())
      ensures ServedCall(table, current, driver.maxTransfer, EndedBefore(log, |log|), QueryCall(answer))
              || (answer.None? && !Supplied(old(clock)))
    {
      var buffer := Buffered();
      var info := driver.Dispatch(Driver.QueryInfo(Driver.SIZE_QUERY_INFO, buffer));
      answer := None;
      if info.Info? {
        assert info == Driver.InfoOf(table);
        answer := FetchRuns(info.runCount, info.totalBytes, info.highestPhysicalEnd);
      }
    }

    method FetchRuns(runCount: u32, totalBytes: u64, highestEnd: u64) returns (answer: Option<Topology>)
      requires driver.Valid() && driver.Abstract() == Driver.Session(Some(table), false)
      requires |table| <= U32_MAX && Driver.Info(runCount, totalBytes, highestEnd) == Driver.InfoOf(table)
      modifies this`clock, driver, driver.pool
      ensures driver.Valid() && driver.Abstract() == old(driver.Abstract()) && clock == old(clock) + 1
      ensures QueryVerdict(table, answer) || (answer.None? && !buffers(old(clock)))
    {
      answer := None;
      var buffer := Buffered();
      var raw := driver.Dispatch(Driver.GetRanges(runCount * Driver.SIZE_MEMORY_RUN, buffer));
      if 0 < runCount <= MAX_RUN_COUNT && raw.Ranges? {
        var runs := Normalize(raw.table);
        if runs.Some? {
          answer := Some(Topology(highestEnd, totalBytes, runs.value));
        }
      }
    }

    method Query() returns (answer: Option<Topology>)
      requires Valid()
      modifies this`log, this`clock, driver, driver.pool
      ensures Valid() && log == old(log) + [QueryCall(answer)]
      ensures Supplied(old(clock)) ==> LastGranted()
    {
      answer := FetchTopology();
      ServedOneMore(table, current, driver.maxTransfer, log, QueryCall(answer));
      log := log + [QueryCall(answer)];
    }

    /** One request, unless the length is out of bounds. */
    method FetchBytes(request: ReadRequest) returns (answer: Option<ReadResult>)
      requires Valid()
      modifies this`clock, driver, driver.pool
      ensures driver.Valid() && driver.Abstract() == old(driver.Abstract())
      ensures ServedCall(table, current, driver.maxTransfer, EndedBefore(log, |log|), ReadCall(request, answer))
              || (answer.None? && !Supplied(old(clock)))
    {
      answer := None;
      if 0 < request.length <= driver.maxTransfer {
        var copy := memory(clock);
        var buffer := Buffered();
        var reply := driver.Dispatch(Driver.ReadRun(DriverRequest(request), buffer,
                                                    Driver.SIZE_READ_RESULT + request.length, copy));
        if reply.Read? && reply.read.bytesCopied <= request.length {
          answer := Some(ReadResult(reply.read.physicalAddress, reply.read.requestedLength, reply.read.bytesCopied,
                                    reply.read.copyStatus, reply.read.payload));
        }
      }
    }

    method Read(request: ReadRequest) returns (answer: Option<ReadResult>)
      requires Valid()
      modifies this`log, this`clock, driver, driver.pool
      ensures Valid() && log == old(log) + [ReadCall(request, answer)]
      ensures Supplied(old(clock)) ==> LastGranted()
    {
      answer := FetchBytes(request);
      ServedOneMore(table, current, driver.maxTransfer, log, ReadCall(request, answer));
      log := log + [ReadCall(request, answer)];
    }

    method FetchComparison() returns (answer: Option<bool>)
      requires Valid()
      modifies this`clock, driver, driver.pool
      ensures driver.Valid()
      ensures driver.Abstract() == Driver.Session(Some(table), EndedBefore(log, |log|) || answer.Some?)
      ensures ServedCall(table, current, driver.maxTransfer, EndedBefore(log, |log|), EndCall(answer))
              || (answer.None? && !(buffers(old(clock)) && rangesAtEnd(old(clock)).Some?))
      ensures clock == old(clock) + 1
    {
      var source := rangesAtEnd(clock);
      var buffer := Buffered();
      var reply := driver.Dispatch(Driver.EndSession(Driver.SIZE_END_RESULT, buffer, source));
      answer := if reply.Ended? then Some(reply.topologyChanged) else None;
    }

    /** Refused also when the memory manager reports no ranges to compare with. */
    method End() returns (answer: Option<bool>)
      requires Valid()
      modifies this`log, this`clock, driver, driver.pool
      ensures Valid() && log == old(log) + [EndCall(answer)]
      ensures Supplied(old(clock)) && rangesAtEnd(old(clock)).Some? ==> LastGranted()
    {
      answer := FetchComparison();
      ServedOneMore(table, current, driver.maxTransfer, log, EndCall(answer));
      log := log + [EndCall(answer)];
    }
  }

  /** Checks every run, sorts them by base address and rejects overlaps. */
  method Normalize(table: seq<PhysicalRange>) returns (ordered: Option<seq<MemoryRun>>)
    requires 0 < |table| <= MAX_RUN_COUNT
    ensures ordered.Some? ==> Orders(table, ordered.value)
    ensures ordered.None? ==> forall runs :: !Orders(table, runs)
  {
    for i := 0 to |table|
      invariant forall k :: 0 <= k < i ==> table[k].length > 0 && table[k].base + table[k].length <= U64_MAX
    {
      if table[i].length == 0 || table[i].base > U64_MAX - table[i].length {
        BadEntryRejects(table, i);
        return None;
      }
    }
    var runs := SortByBase(Indexed(table));
    SortSorts(Indexed(table));
    SortedIsSane(table, runs);
    for i := 1 to |runs|
      invariant forall k :: 0 < k < i ==> runs[k - 1].End() <= runs[k].base
    {
      if runs[i - 1].End() > runs[i].base {
        OverlapRejects(table, runs, i);
        return None;
      }
    }
    NeighboursApart(runs);
    return Some(runs);
  }

  lemma {:induction false} SortedIsSane(table: seq<PhysicalRange>, runs: seq<MemoryRun>)
    requires |table| <= U32_MAX && multiset(runs) == multiset(Indexed(table))
    requires forall k :: 0 <= k < |table| ==> table[k].length > 0 && table[k].base + table[k].length <= U64_MAX
    ensures Sane(runs) && |runs| == |table|
  {
    SameSize(runs, Indexed(table));
    forall i | 0 <= i < |runs|
      ensures runs[i].length > 0 && runs[i].End() <= U64_MAX
    {
      assert runs[i] in multiset(Indexed(table));
    }
  }

  lemma {:induction false} NeighboursApart(runs: seq<MemoryRun>)
    requires Sane(runs) && forall k :: 0 < k < |runs| ==> runs[k - 1].End() <= runs[k].base
    ensures SortedDisjoint(runs)
  {
    forall i, j | 0 <= i < j < |runs|
      ensures runs[i].End() <= runs[j].base
    {
      ApartFrom(runs, i, j);
    }
  }

  lemma {:induction false} ApartFrom(runs: seq<MemoryRun>, i: nat, j: nat)
    requires Sane(runs) && forall k :: 0 < k < |runs| ==> runs[k - 1].End() <= runs[k].base
    requires i < j < |runs|
    ensures runs[i].End() <= runs[j].base
    decreases j
  {
    if i < j - 1 {
      ApartFrom(runs, i, j - 1);
    }
    assert runs[j - 1].End() <= runs[j].base;
  }

  lemma {:induction false} BadEntryRejects(table: seq<PhysicalRange>, i: nat)
    requires i < |table| <= MAX_RUN_COUNT
    requires table[i].length == 0 || table[i].base + table[i].length > U64_MAX
    ensures forall other: seq<MemoryRun> :: !Orders(table, other)
  {
    forall other: seq<MemoryRun>
      ensures !Orders(table, other)
    {
      if multiset(other) == multiset(Indexed(table)) {
        assert Indexed(table)[i] in multiset(other);
        var k :| 0 <= k < |other| && other[k] == Indexed(table)[i];
        assert !(other[k].length > 0 && other[k].End() <= U64_MAX);
      }
    }
  }

  lemma {:induction false} OverlapRejects(table: seq<PhysicalRange>, runs: seq<MemoryRun>, i: nat)
    requires |table| <= MAX_RUN_COUNT && multiset(runs) == multiset(Indexed(table)) && SortedByBase(runs)
    requires 0 < i < |runs| && runs[i - 1].End() > runs[i].base
    ensures forall other: seq<MemoryRun> :: !Orders(table, other)
  {
    forall other: seq<MemoryRun>
      ensures !Orders(table, other)
    {
      if multiset(other) == multiset(Indexed(table)) && Sane(other) && SortedDisjoint(other) {
        SortedPermutationUnique(runs, other);
      }
    }
  }
}
