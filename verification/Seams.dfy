/**
 Touching runs, before anything is captured: which run tables, and over memory that holds still which
 failing pages, let the producer finish a bundle that the verifier rejects.
 */
module Seams {
  import opened Words
  import opened Runs
  import opened Segments
  import opened Engine
  import opened Files
  import opened Hashing
  import opened Devices
  import opened DeviceSessions
  import opened AcquireEngine
  import opened MapFiles
  import opened MapWriter
  import opened EvidenceFiles
  import opened Transaction
  import opened Verifier
  import opened EndToEnd
  import opened StaticMemory
  import opened StaticCapture

  // ---- every finished walk over an accepted table is a finished capture ----

  /** The calls of a capture that made these reads. */
  function CaptureCalls(t: Topology, probes: seq<Probe>, changed: bool): seq<Call> {
    [QueryCall(Some(t))] + ([QueryCall(Some(t))] + ReadCalls(probes) + [EndCall(Some(changed))])
  }

  lemma {:induction false} EachReadOnPolicy(lim: Limits, runs: seq<MemoryRun>, probes: seq<Probe>, k: nat)
    requires lim.Valid() && Conforming(lim, runs, probes) && k < |probes|
    ensures Conforming(lim, runs, probes[..k])
    ensures var w := Replay(lim, runs, probes[..k]);
            && Active(runs, w) && probes[k].request == NextRequest(lim, runs, w)
            && Accepts(lim, runs, w, probes[k].result)
  {
    var init := probes[..|probes| - 1];
    if k < |init| {
      EachReadOnPolicy(lim, runs, init, k);
      assert init[..k] == probes[..k];
    }
  }

  lemma {:induction false} CaptureCallAt(t: Topology, probes: seq<Probe>, changed: bool, k: nat)
    requires k < |CaptureCalls(t, probes, changed)|
    ensures var calls := CaptureCalls(t, probes, changed);
            calls[k] == if k < 2 then QueryCall(Some(t))
                        else if k < |probes| + 2 then ReadCall(probes[k - 2].request, Some(probes[k - 2].result))
                        else EndCall(Some(changed))
  {
  }

  /** What the policy asks of an accepted table, and what passes the filter, the driver may have served. */
  lemma {:induction false} PolicyIsServed(lim: Limits, table: seq<PhysicalRange>, t: Topology,
                                          current: seq<PhysicalRange>, probes: seq<Probe>)
    requires lim.Valid() && Normalizes(table, t) && Conforming(lim, t.runs, probes)
    ensures NoneRefused(table, current, lim.transfer, CaptureCalls(t, probes, current != table))
  {
    var calls := CaptureCalls(t, probes, current != table);
    forall k | 0 <= k < |calls|
      ensures Granted(table, current, lim.transfer, calls, k)
    {
      forall j | 0 <= j < k
        ensures !calls[j].EndCall?
      {
        CaptureCallAt(t, probes, current != table, j);
      }
      CaptureCallAt(t, probes, current != table, k);
      if 2 <= k < |probes| + 2 {
        EachReadOnPolicy(lim, t.runs, probes, k - 2);
        PolicyReadsAreAdmissible(lim, table, t, probes[..k - 2]);
      }
    }
  }

  /** The summary of these reads, with the digest of their image. */
  function SummaryFor(codec: Codec, t: Topology, segs: seq<Segment>, changed: bool): AcquisitionSummary
    requires GotBytes(segs) <= U64_MAX && LostBytes(segs) <= U64_MAX
  {
    SummaryOf(t, segs, changed).(sha256 := HexEncode(codec.digest(ImageOf(segs, t.highestEnd))))
  }

  lemma {:induction false} FinishedIsAcquired(lim: Limits, codec: Codec, table: seq<PhysicalRange>, t: Topology,
                                              probes: seq<Probe>, changed: bool)
    requires lim.Valid() && Normalizes(table, t)
    requires Conforming(lim, t.runs, probes) && Finished(t.runs, Replay(lim, t.runs, probes))
    ensures var segs := Replay(lim, t.runs, probes).segments;
            && GotBytes(segs) + LostBytes(segs) == t.totalBytes
            && Acquired(lim, codec.digest, CaptureCalls(t, probes, changed), t, SummaryFor(codec, t, segs, changed),
                        probes, ImageOf(segs, t.highestEnd))
            && Balanced(SummaryFor(codec, t, segs, changed))
  {
    FinishedConserves(lim, t.runs, probes);
    NormalizedTotals(table, t);
    HighestEndIsLastEnd(t.runs);
    SumWithinLastEnd(t.runs);
    assert t.runs[..|t.runs|] == t.runs;
    assert t.runs[|t.runs| - 1].length > 0;
    var calls := CaptureCalls(t, probes, changed);
    assert calls[1..] == [QueryCall(Some(t))] + ReadCalls(probes) + [EndCall(Some(changed))];
  }

  /** Every finished walk over an accepted table is the walk of a finalized capture over the driver. */
  lemma {:induction false} FinishedIsFinalized(lim: Limits, codec: Codec, table: seq<PhysicalRange>, t: Topology,
                                               current: seq<PhysicalRange>, probes: seq<Probe>, outputPath: string,
                                               base: Disk)
    returns (disk: Disk, status: EvidenceCaptureStatus, summary: AcquisitionSummary, image: seq<byte>)
    requires lim.Valid() && Normalizes(table, t) && Untouched(BuildEvidencePaths(outputPath), base)
    requires Conforming(lim, t.runs, probes) && Finished(t.runs, Replay(lim, t.runs, probes))
    ensures Finalized(lim, codec, outputPath, base, disk, CaptureCalls(t, probes, current != table), status, t, summary,
                      probes, image)
    ensures NoneRefused(table, current, lim.transfer, CaptureCalls(t, probes, current != table))
    ensures summary.ranges == t.runs
  {
    var segs, changed, paths := Replay(lim, t.runs, probes).segments, current != table, BuildEvidencePaths(outputPath);
    PolicyIsServed(lim, table, t, current, probes);
    FinishedIsAcquired(lim, codec, table, t, probes, changed);
    summary, image := SummaryFor(codec, t, segs, changed), ImageOf(segs, t.highestEnd);
    AcquiredSpansFit(lim, codec.digest, CaptureCalls(t, probes, changed), t, summary, probes, image);
    AcquiredIsWritable(lim, codec.digest, CaptureCalls(t, probes, changed), t, summary, probes, image);
    disk := PublishedDisk(paths, base, image, codec.utf8(codec.render(MapOf(summary))),
                          codec.utf8(SidecarText(summary.sha256, FileName(outputPath))));
    status := if summary.topologyChanged || summary.unreadableBytes != 0 then Incomplete else Complete;
  }

  // ---- acceptance, decided by the table ----

  /** The verifier accepts the bundle published under this path. */
  ghost predicate Accepted(codec: Codec, disk: Disk, outputPath: string) {
    var paths := BuildEvidencePaths(outputPath);
    exists m :: Acceptable(codec, disk, paths.rawFinal, paths.mapFinal, Some(paths.hashFinal), m)
  }

  /** A finalized bundle is accepted exactly when nothing was lost across a seam. */
  lemma {:induction false} AcceptedIffNothingLostAcross(lim: Limits, codec: Codec, table: seq<PhysicalRange>,
                                                        current: seq<PhysicalRange>, outputPath: string, base: Disk,
                                                        disk: Disk, calls: seq<Call>, status: EvidenceCaptureStatus,
                                                        first: Topology, summary: AcquisitionSummary,
                                                        probes: seq<Probe>, image: seq<byte>)
    requires lim.Valid() && Lawful(codec)
    requires Finalized(lim, codec, outputPath, base, disk, calls, status, first, summary, probes, image)
    requires ServedByDriver(table, current, lim.transfer, calls)
    ensures Accepted(codec, disk, outputPath)
       <==> forall b :: !LostAcross(summary.ranges, History(lim, summary, probes), b)
  {
    PublishedIsAcceptable(lim, codec, table, current, outputPath, base, disk, calls, status, first, summary, probes,
                          image);
    PublishedFilesReadBack(codec, outputPath, base, image, MapOf(summary),
                           SidecarText(summary.sha256, FileName(outputPath)));
  }

  /** Every capture over the driver that ends well on this table gives a bundle the verifier accepts. */
  ghost predicate AlwaysAccepted(lim: Limits, codec: Codec, table: seq<PhysicalRange>, current: seq<PhysicalRange>,
                                 outputPath: string, base: Disk)
    requires lim.Valid()
  {
    forall disk, calls, status, first, summary, probes, image ::
      Finalized(lim, codec, outputPath, base, disk, calls, status, first, summary, probes, image)
      && ServedByDriver(table, current, lim.transfer, calls)
      ==> Accepted(codec, disk, outputPath)
  }

  /** Where two entries of an accepted table touch, memory all of whose pages fail makes a rejected bundle. */
  lemma {:induction false} TouchingTableIsRejected(lim: Limits, codec: Codec, table: seq<PhysicalRange>, t: Topology,
                                                   current: seq<PhysicalRange>, outputPath: string, base: Disk)
    returns (disk: Disk, calls: seq<Call>, status: EvidenceCaptureStatus, summary: AcquisitionSummary,
             probes: seq<Probe>, image: seq<byte>)
    requires lim.Valid() && Lawful(codec) && Normalizes(table, t) && !NoneTouch(t.runs)
    requires Untouched(BuildEvidencePaths(outputPath), base)
    ensures Finalized(lim, codec, outputPath, base, disk, calls, status, t, summary, probes, image)
    ensures NoneRefused(table, current, lim.transfer, calls) && ServedByDriver(table, current, lim.transfer, calls)
    ensures !Accepted(codec, disk, outputPath)
  {
    var i, j :| 0 <= i < |t.runs| && 0 <= j < |t.runs| && t.runs[i].End() == t.runs[j].base;
    probes := TouchingRunsBreak(lim, t.runs, i, j);
    calls := CaptureCalls(t, probes, current != table);
    disk, status, summary, image := FinishedIsFinalized(lim, codec, table, t, current, probes, outputPath, base);
    AcceptedIffNothingLostAcross(lim, codec, table, current, outputPath, base, disk, calls, status, t, summary, probes,
                                 image);
    FinishedPartitions(lim, t.runs, probes);
    SpansInRunsIffNothingLostAcross(t.runs, Replay(lim, t.runs, probes).segments);
  }

  /** Over the bundles of an accepted table: all of them are accepted exactly when no two entries touch. */
  lemma {:induction false} AlwaysAcceptedIffNoneTouch(lim: Limits, codec: Codec, table: seq<PhysicalRange>, t: Topology,
                                                      current: seq<PhysicalRange>, outputPath: string, base: Disk)
    requires lim.Valid() && Lawful(codec) && Normalizes(table, t)
    requires Untouched(BuildEvidencePaths(outputPath), base)
    ensures AlwaysAccepted(lim, codec, table, current, outputPath, base) <==> NoneTouch(Indexed(table))
  {
    if NoneTouch(Indexed(table)) {
      forall disk, calls, status, first, summary, probes, image |
        Finalized(lim, codec, outputPath, base, disk, calls, status, first, summary, probes, image)
        && ServedByDriver(table, current, lim.transfer, calls)
        ensures Accepted(codec, disk, outputPath)
      {
        QueriesAgree(lim, codec, table, current, calls, first, summary, probes, image);
        NoneTouchIgnoresOrder(Indexed(table), summary.ranges);
        NothingLostAcrossNoSeam(summary.ranges, History(lim, summary, probes));
        AcceptedIffNothingLostAcross(lim, codec, table, current, outputPath, base, disk, calls, status, first, summary,
                                     probes, image);
      }
    } else {
      if NoneTouch(t.runs) {
        NoneTouchIgnoresOrder(t.runs, Indexed(table));
      }
      var disk, calls, status, summary, probes, image :=
        TouchingTableIsRejected(lim, codec, table, t, current, outputPath, base);
      assert Finalized(lim, codec, outputPath, base, disk, calls, status, t, summary, probes, image);
    }
  }

  // ---- acceptance, decided by the table and the failing pages ----

  ghost predicate Seam(runs: seq<MemoryRun>, b: int) {
    exists i, j :: 0 <= i < |runs| && 0 <= j < |runs| && runs[i].End() == b == runs[j].base
  }

  /** Two runs touch at `b`, and the pages on both sides fail with one status. */
  ghost predicate SeamFails(lim: Limits, mem: Memory, runs: seq<MemoryRun>, b: int)
    requires lim.Valid()
  {
    && b > 0 && Seam(runs, b)
    && FaultAt(lim, mem, b).Some? && FaultAt(lim, mem, b - 1) == FaultAt(lim, mem, b)
  }

  lemma {:induction false} SeamIsPopulated(runs: seq<MemoryRun>, b: int)
    requires Sane(runs) && Seam(runs, b)
    ensures b > 0 && InRuns(runs, b - 1) && InRuns(runs, b)
  {
    var i, j :| 0 <= i < |runs| && 0 <= j < |runs| && runs[i].End() == b == runs[j].base;
    assert runs[i].Covers(b - 1) && runs[j].Covers(b);
  }

  /** Over static memory something is lost across a seam exactly where the pages on both sides fail alike. */
  lemma {:induction false} LostAcrossIffSeamFails(lim: Limits, mem: Memory, runs: seq<MemoryRun>, segs: seq<Segment>,
                                                  b: int)
    requires lim.Valid() && Sane(runs) && Record(lim, mem, runs, segs)
    ensures LostAcross(runs, segs, b) <==> SeamFails(lim, mem, runs, b)
  {
    if Seam(runs, b) {
      SeamIsPopulated(runs, b);
      forall status: i32
        ensures LostAt(segs, b - 1, status) <==> FaultAt(lim, mem, b - 1) == Some(status)
        ensures LostAt(segs, b, status) <==> FaultAt(lim, mem, b) == Some(status)
      {
        RecordLost(lim, mem, runs, segs, b - 1, status);
        RecordLost(lim, mem, runs, segs, b, status);
      }
      if SeamFails(lim, mem, runs, b) {
        assert LostAt(segs, b - 1, FaultAt(lim, mem, b).value) && LostAt(segs, b, FaultAt(lim, mem, b).value);
      }
    }
  }

  lemma {:induction false} SeamIgnoresOrder(a: seq<MemoryRun>, c: seq<MemoryRun>, b: int)
    requires multiset(a) == multiset(c) && Seam(a, b)
    ensures Seam(c, b)
  {
    var i, j :| 0 <= i < |a| && 0 <= j < |a| && a[i].End() == b == a[j].base;
    assert a[i] in multiset(c) && a[j] in multiset(c);
    var k :| 0 <= k < |c| && c[k] == a[i];
    var l :| 0 <= l < |c| && c[l] == a[j];
    assert c[k].End() == b == c[l].base;
  }

  /** The reads of a capture are reads of the memory when the calls of the capture are. */
  lemma {:induction false} ReadsAfterQuery(lim: Limits, mem: Memory, table: seq<PhysicalRange>, calls: seq<Call>)
    requires lim.Valid() && |calls| > 0 && ReadsStatic(lim, mem, table, calls)
    ensures ReadsStatic(lim, mem, table, calls[1..])
  {
    var rest := calls[1..];
    forall k | 0 <= k < |rest| && rest[k].ReadCall? && rest[k].result.Some?
      ensures rest[k].result == ReadAnswer(table, lim.transfer, rest[k].request, StaticCopy(lim, mem))
    {
      assert rest[k] == calls[k + 1];
    }
  }

  /**
   Over static memory a finalized bundle is accepted exactly when at no seam between two entries of the
   table the pages on both sides fail with one status.
   */
  lemma {:induction false} StaticBundleAcceptedIffNoSeamFails(lim: Limits, codec: Codec, mem: Memory,
                                                              table: seq<PhysicalRange>, current: seq<PhysicalRange>,
                                                              outputPath: string, base: Disk, disk: Disk,
                                                              calls: seq<Call>, status: EvidenceCaptureStatus,
                                                              first: Topology, summary: AcquisitionSummary,
                                                              probes: seq<Probe>, image: seq<byte>)
    requires lim.Valid() && Lawful(codec)
    requires Finalized(lim, codec, outputPath, base, disk, calls, status, first, summary, probes, image)
    requires ServedByDriver(table, current, lim.transfer, calls) && ReadsStatic(lim, mem, table, calls)
    ensures |table| <= U32_MAX
    ensures Accepted(codec, disk, outputPath) <==> forall b: int :: !SeamFails(lim, mem, Indexed(table), b)
  {
    var runs, segs := summary.ranges, History(lim, summary, probes);
    QueriesAgree(lim, codec, table, current, calls, first, summary, probes, image);
    AcceptedIffNothingLostAcross(lim, codec, table, current, outputPath, base, disk, calls, status, first, summary,
                                 probes, image);
    ReadsAfterQuery(lim, mem, table, calls);
    StaticProbesServed(lim, mem, table, calls[1..], Topology(summary.logicalSize, summary.physicalBytes, runs), probes,
                       summary.topologyChanged);
    EngineRecords(lim, mem, runs, probes);
    forall b: int
      ensures LostAcross(runs, segs, b) <==> SeamFails(lim, mem, Indexed(table), b)
    {
      LostAcrossIffSeamFails(lim, mem, runs, segs, b);
      if Seam(runs, b) {
        SeamIgnoresOrder(runs, Indexed(table), b);
      } else if Seam(Indexed(table), b) {
        SeamIgnoresOrder(Indexed(table), runs, b);
      }
    }
  }
}
