/**
 A whole acquisition through the driver over memory that holds still: the summary and the image are
 those of the plain page-by-page scan, and nothing is missing exactly when no page of the runs fails.
 */
module StaticCapture {
  import opened Words
  import opened Runs
  import opened Segments
  import opened Engine
  import opened Devices
  import opened DeviceSessions
  import opened AcquireEngine
  import opened StaticMemory
  import Driver

  /** How far memory can be read from `a` before a failing page, at most `n` bytes. */
  function GoodPrefix(lim: Limits, mem: Memory, a: nat, n: nat): (k: nat)
    requires lim.Valid()
    ensures k <= n
    ensures k < n ==> FaultAt(lim, mem, a + k).Some?
    ensures forall x: int :: a <= x < a + k ==> FaultAt(lim, mem, x) == None
    decreases n
  {
    if n == 0 || FaultAt(lim, mem, a).Some? then 0 else 1 + GoodPrefix(lim, mem, a + 1, n - 1)
  }

  /** A physical copy of static memory: the longest prefix free of failing pages. */
  function CopyFrom(lim: Limits, mem: Memory, address: u64, length: u32): (c: Driver.Copy)
    requires lim.Valid()
    ensures c.copied <= length && |c.bytes| == c.copied
  {
    var k := GoodPrefix(lim, mem, address, length);
    Driver.Copy(k, if k < length then FaultAt(lim, mem, address + k).value else 0,
                seq(k, i requires 0 <= i < k => mem.contents(address + i)))
  }

  function StaticCopy(lim: Limits, mem: Memory): (copy: (u64, u32) -> Driver.Copy)
    requires lim.Valid()
    ensures Driver.Copies(copy)
  {
    (address: u64, length: u32) => CopyFrom(lim, mem, address, length)
  }

  /** Every read that was answered was answered by the driver from this memory. */
  ghost predicate ReadsStatic(lim: Limits, mem: Memory, table: seq<PhysicalRange>, calls: seq<Call>)
    requires lim.Valid()
  {
    forall k :: 0 <= k < |calls| && calls[k].ReadCall? && calls[k].result.Some? ==>
      calls[k].result == ReadAnswer(table, lim.transfer, calls[k].request, StaticCopy(lim, mem))
  }

  /** Static memory has an oracle that answers like the driver, and what it explains is read from that memory. */
  lemma {:induction false} StaticMemoryHasOracle(lim: Limits, mem: Memory, table: seq<PhysicalRange>,
                                                 current: seq<PhysicalRange>) returns (oracle: Oracle)
    requires lim.Valid()
    ensures AnswersLikeDriver(oracle, table, current, lim.transfer)
    ensures NeverRefuses(oracle, table, current, lim.transfer)
    ensures forall log: seq<Call>, from: nat :: oracle.Explains(log) && from <= |log| ==>
              ReadsStatic(lim, mem, table, log[from..])
  {
    oracle := EveryMemoryHasOracle(table, current, lim.transfer, _ => StaticCopy(lim, mem), _ => false);
    forall log: seq<Call>, from: nat | oracle.Explains(log) && from <= |log|
      ensures ReadsStatic(lim, mem, table, log[from..])
    {
      var calls := log[from..];
      forall k | 0 <= k < |calls| && calls[k].ReadCall? && calls[k].result.Some?
        ensures calls[k].result == ReadAnswer(table, lim.transfer, calls[k].request, StaticCopy(lim, mem))
      {
        assert oracle.Gives(log[..from + k], log[from + k]);
      }
    }
  }

  /** What a copy returns is what memory holds, up to the first failing page, whose status it reports. */
  lemma {:induction false} CopyTellsTruth(lim: Limits, mem: Memory, address: u64, length: u32)
    requires lim.Valid()
    ensures var c := CopyFrom(lim, mem, address, length);
            && (forall a: int :: address <= a < address + c.copied ==>
                  FaultAt(lim, mem, a) == None && c.bytes[a - address] == mem.contents(a))
            && (c.copied < length ==> FaultAt(lim, mem, address + c.copied) == Some(c.status))
  {
  }

  lemma {:induction false} AnswerIsServed(lim: Limits, mem: Memory, table: seq<PhysicalRange>, p: Probe)
    requires lim.Valid()
    requires Some(p.result) == ReadAnswer(table, lim.transfer, p.request, StaticCopy(lim, mem))
    ensures Served(lim, mem, p)
  {
    var r := DriverRequest(p.request);
    var address: u64 := table[r.runIndex].base + r.offsetWithinRun;
    var c := CopyFrom(lim, mem, address, r.length);
    assert p.result == ReadResult(address, r.length, c.copied, c.status, c.bytes);
    CopyTellsTruth(lim, mem, address, r.length);
  }

  lemma {:induction false} StaticProbesServed(lim: Limits, mem: Memory, table: seq<PhysicalRange>, calls: seq<Call>,
                                              t: Topology, probes: seq<Probe>, changed: bool)
    requires lim.Valid() && RanToEnd(lim, calls, t, probes, changed) && ReadsStatic(lim, mem, table, calls)
    ensures forall k :: 0 <= k < |probes| ==> Served(lim, mem, probes[k])
  {
    forall k | 0 <= k < |probes|
      ensures Served(lim, mem, probes[k])
    {
      assert calls[k + 1] == ReadCalls(probes)[k];
      AnswerIsServed(lim, mem, table, probes[k]);
    }
  }

  /** The summary of the plain scan. */
  ghost predicate SummaryOfScan(lim: Limits, mem: Memory, summary: AcquisitionSummary, segs: seq<Segment>) {
    && summary.unreadable == Coalesce(segs)
    && summary.acquiredBytes == GotBytes(segs)
    && summary.unreadableBytes == LostBytes(segs)
  }

  /** Summary and image of a finished acquisition of static memory are those of the plain scan. */
  lemma {:induction false} CaptureEqualsNaive(lim: Limits, mem: Memory, table: seq<PhysicalRange>, calls: seq<Call>,
                                              summary: AcquisitionSummary, probes: seq<Probe>, size: nat)
    requires lim.Valid() && Summarizes(lim, calls, summary, probes) && SortedDisjoint(summary.ranges)
    requires ReadsStatic(lim, mem, table, calls)
    ensures var naive := NaiveScan(lim, mem, summary.ranges, START).segments;
            && SummaryOfScan(lim, mem, summary, naive)
            && ImageOf(History(lim, summary, probes), size) == ImageOf(naive, size)
  {
    var t := Topology(summary.logicalSize, summary.physicalBytes, summary.ranges);
    StaticProbesServed(lim, mem, table, calls, t, probes, summary.topologyChanged);
    FastEqualsNaive(lim, mem, summary.ranges, probes, size);
  }

  lemma {:induction false} LostSomewhere(segs: seq<Segment>)
    requires Ascending(segs) && LostBytes(segs) > 0
    ensures exists a: nat, status :: LostAt(segs, a, status)
  {
    var n := |segs| - 1;
    if segs[n].Lost? {
      assert segs[n].Covers(segs[n].start) && LostAt(segs, segs[n].start, segs[n].status);
    } else {
      LostSomewhere(segs[..n]);
      var a: nat, status :| LostAt(segs[..n], a, status);
      var i :| 0 <= i < n && segs[..n][i].Lost? && segs[..n][i].Covers(a) && segs[..n][i].status == status;
      assert segs[i].Covers(a) && LostAt(segs, a, status);
    }
  }

  lemma {:induction false} LostCounts(segs: seq<Segment>, a: int, status: i32)
    requires LostAt(segs, a, status)
    ensures LostBytes(segs) > 0
  {
    var n := |segs| - 1;
    var i :| 0 <= i < |segs| && segs[i].Lost? && segs[i].Covers(a) && segs[i].status == status;
    if i < n {
      assert segs[..n][i].Covers(a);
      LostCounts(segs[..n], a, status);
    }
  }

  /** No byte is unreadable exactly when no populated address is in a failing page. */
  lemma {:induction false} NothingUnreadableIffNoFault(lim: Limits, mem: Memory, table: seq<PhysicalRange>,
                                                       calls: seq<Call>, summary: AcquisitionSummary,
                                                       probes: seq<Probe>)
    requires lim.Valid() && Summarizes(lim, calls, summary, probes) && SortedDisjoint(summary.ranges)
    requires ReadsStatic(lim, mem, table, calls)
    ensures summary.unreadableBytes == 0
       <==> forall a: nat :: InRuns(summary.ranges, a) ==> FaultAt(lim, mem, a) == None
  {
    var segs := History(lim, summary, probes);
    var t := Topology(summary.logicalSize, summary.physicalBytes, summary.ranges);
    StaticProbesServed(lim, mem, table, calls, t, probes, summary.topologyChanged);
    EngineRecords(lim, mem, summary.ranges, probes);
    if summary.unreadableBytes == 0 {
      forall a: nat | InRuns(summary.ranges, a)
        ensures FaultAt(lim, mem, a) == None
      {
        if FaultAt(lim, mem, a).Some? {
          RecordLost(lim, mem, summary.ranges, segs, a, FaultAt(lim, mem, a).value);
          LostCounts(segs, a, FaultAt(lim, mem, a).value);
        }
      }
    } else {
      LostSomewhere(segs);
      var a: nat, status :| LostAt(segs, a, status);
      RecordLost(lim, mem, summary.ranges, segs, a, status);
    }
  }
}
