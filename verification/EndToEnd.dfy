/**
 The composition: an acquisition over the driver is never rejected, and what the producer publishes
 the independent verifier accepts, exactly when no unreadable span runs across two touching runs.
 */
module EndToEnd {
  import opened Words
  import opened Runs
  import opened Segments
  import opened Engine
  import opened Files
  import opened Hashing
  import opened Hex
  import opened RawWriters
  import opened Devices
  import opened DeviceSessions
  import opened AcquireEngine
  import opened MapFiles
  import opened MapWriter
  import opened EvidenceFiles
  import opened Transaction
  import opened Verifier

  // ---- protocol conformance ----

  lemma {:induction false} NoEndAmongReads(calls: seq<Call>, probes: seq<Probe>, k: nat)
    requires k <= |probes| + 1 <= |calls|
    requires calls[0].QueryCall? && calls[1..|probes| + 1] == ReadCalls(probes)
    ensures !EndedBefore(calls, k)
  {
    forall j | 0 <= j < k
      ensures !calls[j].EndCall?
    {
      if j > 0 {
        assert calls[j] == calls[1..|probes| + 1][j - 1];
      }
    }
  }

  /** The reads the policy asks for are reads the driver admits. */
  lemma {:induction false} PolicyReadsAreAdmissible(lim: Limits, table: seq<PhysicalRange>, t: Topology,
                                                    probes: seq<Probe>)
    requires lim.Valid() && Normalizes(table, t) && Conforming(lim, t.runs, probes)
    requires Active(t.runs, Replay(lim, t.runs, probes))
    ensures var w := Replay(lim, t.runs, probes);
            var r := NextRequest(lim, t.runs, w);
            && Driver.Admissible(table, lim.transfer, r.length, DriverRequest(r))
            && table[r.runIndex].base + r.offset == Here(t.runs, w)
  {
    var w := Replay(lim, t.runs, probes);
    NormalizedRunsAreEntries(table, t);
    WindowsFitTransfer(lim, t.runs, probes);
    assert t.runs[w.run] == Indexed(table)[t.runs[w.run].driverIndex];
  }

  lemma {:induction false} NormalizedIsGood(table: seq<PhysicalRange>, t: Topology, size: nat)
    requires Normalizes(table, t) && size >= t.highestEnd
    ensures Good(t.runs, size)
  {
    NormalizedTotals(table, t);
    HighestEndIsLastEnd(t.runs);
    HighestEndBounds(t.runs);
  }

  /**
   Unless the system refuses a call, no answer of the driver ends an acquisition; and no run table of its
   is one the engine cannot follow.
   */
  lemma {:induction false} DriverNeverRejects(lim: Limits, table: seq<PhysicalRange>, current: seq<PhysicalRange>,
                                              calls: seq<Call>, probes: seq<Probe>, t: Topology, size: nat)
    requires lim.Valid() && Normalizes(table, t) && size >= t.highestEnd
    requires ServedByDriver(table, current, lim.transfer, calls)
    ensures NoneRefused(table, current, lim.transfer, calls) ==> !RejectedByDevice(lim, calls, probes)
    ensures !BadTable(calls, size)
  {
    if |calls| > 0 && calls[0].QueryCall? {
      assert !EndedBefore(calls, 0);
      assert Granted(table, current, lim.transfer, calls, 0) || Unanswered(calls[0]);
      if calls[0].topology.Some? {
        NormalizationUnique(table, t, calls[0].topology.value);
        NormalizedTotals(table, t);
        NormalizedIsGood(table, t, Min(size, t.highestEnd));
        if NoneRefused(table, current, lim.transfer, calls) && RejectedByDevice(lim, calls, probes) {
          ServedReadsAreTaken(lim, table, current, calls, probes, t);
        }
      }
    }
  }

  lemma {:induction false} ServedReadsAreTaken(lim: Limits, table: seq<PhysicalRange>, current: seq<PhysicalRange>,
                                               calls: seq<Call>, probes: seq<Probe>, t: Topology)
    requires lim.Valid() && Normalizes(table, t) && NoneRefused(table, current, lim.transfer, calls)
    requires |calls| > 0 && calls[0].QueryCall? && KeptToPolicy(lim, t.runs, calls[1..], probes)
    ensures !Refusing(calls[1..], |probes|)
  {
    var n := |probes|;
    if |calls| == n + 2 {
      assert calls[1..n + 1] == calls[1..][..n] == ReadCalls(probes);
      NoEndAmongReads(calls, probes, n + 1);
      assert calls[1..][n] == calls[n + 1];
      assert Granted(table, current, lim.transfer, calls, n + 1);
      if Active(t.runs, Replay(lim, t.runs, probes)) {
        PolicyReadsAreAdmissible(lim, table, t, probes);
      }
    }
  }

  /** Over the driver an acquisition fails only when the system refuses something or the user cancels it. */
  method AcquireFromDriver(device: Device, writer: RawWriter, hasher: Sha256, cancelled: CancelFlag,
                           lim: Limits, rateLimitMBps: u32, ghost table: seq<PhysicalRange>,
                           ghost current: seq<PhysicalRange>, ghost t: Topology)
    returns (ok: bool, summary: AcquisitionSummary, ghost probes: seq<Probe>)
    requires lim.Valid() && IsPowerOfTwo(lim.page)
    requires writer.Valid() && writer.isOpen && writer.Image() == Zeros(writer.logicalSize)
    requires hasher.initialized && hasher.absorbed == [] && device.Genuine()
    requires Normalizes(table, t) && writer.logicalSize >= t.highestEnd
    requires AnswersLikeDriver(device.oracle, table, current, lim.transfer)
    requires !EndedBefore(device.log, |device.log|)
    modifies device, hasher`absorbed, hasher`clock, writer.fs, cancelled
    ensures device.Genuine() && old(device.log) <= device.log
    ensures || ok
            || Interrupted(old(SurroundingsOf(hasher, writer, cancelled)), SurroundingsOf(hasher, writer, cancelled))
            || !NoneRefused(table, current, lim.transfer, device.log[|old(device.log)|..])
    ensures NeverRefuses(device.oracle, table, current, lim.transfer) ==>
              NoneRefused(table, current, lim.transfer, device.log[|old(device.log)|..])
    ensures ok ==> RanToEnd(lim, device.log[|old(device.log)|..],
                            Topology(summary.logicalSize, summary.physicalBytes, summary.ranges),
                            probes, summary.topologyChanged)
  {
    ok, summary, probes := Acquire(device, writer, hasher, cancelled, lim, rateLimitMBps);
    EndedInPrefix(old(device.log), device.log);
    LikeDriverIsServed(device.oracle, table, current, lim.transfer, device.log, |old(device.log)|);
    DriverNeverRejects(lim, table, current, device.log[|old(device.log)|..], probes, t, writer.logicalSize);
  }

  lemma {:induction false} EndedInPrefix(before: seq<Call>, log: seq<Call>)
    requires before <= log
    ensures EndedBefore(log, |before|) <==> EndedBefore(before, |before|)
  {
    assert forall j :: 0 <= j < |before| ==> log[j] == before[j];
  }

  // ---- spans and runs ----

  ghost predicate InOneRun(runs: seq<MemoryRun>, s: Span) {
    exists i :: 0 <= i < |runs| && runs[i].base <= s.start && s.End() <= runs[i].End()
  }

  ghost predicate SpansInRuns(runs: seq<MemoryRun>, spans: seq<Span>) {
    forall k :: 0 <= k < |spans| ==> InOneRun(runs, spans[k])
  }

  /** Two runs touch at `b`, and the bytes on both sides were lost with the same status. */
  ghost predicate LostAcross(runs: seq<MemoryRun>, segs: seq<Segment>, b: int) {
    && (exists i, j :: 0 <= i < |runs| && 0 <= j < |runs| && runs[i].End() == b == runs[j].base)
    && (exists status :: LostAt(segs, b - 1, status) && LostAt(segs, b, status))
  }

  lemma {:induction false} UnbrokenStretchInOneRun(runs: seq<MemoryRun>, segs: seq<Segment>, lo: nat, hi: nat, status: i32)
    requires SortedDisjoint(runs) && forall b :: !LostAcross(runs, segs, b)
    requires lo < hi && forall a: int :: lo <= a < hi ==> InRuns(runs, a) && LostAt(segs, a, status)
    ensures exists i :: 0 <= i < |runs| && runs[i].base <= lo && hi <= runs[i].End()
    decreases hi - lo
  {
    assert InRuns(runs, hi - 1);
    var j :| 0 <= j < |runs| && runs[j].Covers(hi - 1);
    if hi - lo > 1 {
      UnbrokenStretchInOneRun(runs, segs, lo, hi - 1, status);
      var i :| 0 <= i < |runs| && runs[i].base <= lo && hi - 1 <= runs[i].End();
      assert !LostAcross(runs, segs, hi - 1);
      assert LostAt(segs, hi - 2, status) && LostAt(segs, hi - 1, status);
      var endOfOne, startOfOther := runs[i].End(), runs[j].base;
      assert !(endOfOne == hi - 1 && startOfOther == hi - 1);
    }
  }

  lemma {:induction false} SpanBytesAreLost(segs: seq<Segment>, k: nat)
    requires k < |Coalesce(segs)|
    ensures var s := Coalesce(segs)[k];
            forall a: int :: s.Covers(a) ==> LostAt(segs, a, s.status) && Covered(segs, a)
  {
    var s := Coalesce(segs)[k];
    forall a: int | s.Covers(a)
      ensures LostAt(segs, a, s.status) && Covered(segs, a)
    {
      CoalesceCovers(segs, a, s.status);
    }
  }

  /** Neighbouring lost bytes of one status are in one span. */
  lemma {:induction false} NeighboursShareSpan(segs: seq<Segment>, b: int, status: i32)
    requires Ascending(segs) && LostAt(segs, b - 1, status) && LostAt(segs, b, status)
    ensures exists k :: 0 <= k < |Coalesce(segs)| && Coalesce(segs)[k].Covers(b - 1) && Coalesce(segs)[k].Covers(b)
  {
    var spans := Coalesce(segs);
    CoalesceCanonical(segs);
    CoalesceCovers(segs, b - 1, status);
    CoalesceCovers(segs, b, status);
    var k :| 0 <= k < |spans| && spans[k].Covers(b - 1) && spans[k].status == status;
    var l :| 0 <= l < |spans| && spans[l].Covers(b) && spans[l].status == status;
    if k < l {
      CanonicalAscends(spans, k, l);
      assert Apart(spans[l - 1], spans[l]);
      if k < l - 1 {
        CanonicalAscends(spans, k, l - 1);
      }
    } else if l < k {
      CanonicalAscends(spans, l, k);
    }
  }

  /** Every span lies in one run exactly when nothing was lost across a seam between touching runs. */
  lemma {:induction false} SpansInRunsIffNothingLostAcross(runs: seq<MemoryRun>, segs: seq<Segment>)
    requires Sane(runs) && SortedDisjoint(runs) && Ascending(segs) && CoversExactly(runs, segs)
    ensures SpansInRuns(runs, Coalesce(segs)) <==> forall b :: !LostAcross(runs, segs, b)
  {
    var spans := Coalesce(segs);
    CoalesceCanonical(segs);
    if forall b :: !LostAcross(runs, segs, b) {
      forall k | 0 <= k < |spans|
        ensures InOneRun(runs, spans[k])
      {
        SpanBytesAreLost(segs, k);
        forall a: int | spans[k].Covers(a)
          ensures InRuns(runs, a)
        {
          assert Covered(segs, a) <==> InRuns(runs, a);
        }
        UnbrokenStretchInOneRun(runs, segs, spans[k].start, spans[k].End(), spans[k].status);
      }
    }
    if SpansInRuns(runs, spans) {
      forall b
        ensures !LostAcross(runs, segs, b)
      {
        if exists status :: LostAt(segs, b - 1, status) && LostAt(segs, b, status) {
          var status :| LostAt(segs, b - 1, status) && LostAt(segs, b, status);
          NeighboursShareSpan(segs, b, status);
          var k :| 0 <= k < |spans| && spans[k].Covers(b - 1) && spans[k].Covers(b);
          assert InOneRun(runs, spans[k]);
          var r :| 0 <= r < |runs| && runs[r].base <= spans[k].start && spans[k].End() <= runs[r].End();
          SeamOutsideRun(runs, r, b);
        }
      }
    }
  }

  /** No run reaches across a seam. */
  lemma {:induction false} SeamOutsideRun(runs: seq<MemoryRun>, r: nat, b: int)
    requires Sane(runs) && SortedDisjoint(runs) && r < |runs| && runs[r].Covers(b - 1) && runs[r].Covers(b)
    ensures !exists i, j :: 0 <= i < |runs| && 0 <= j < |runs| && runs[i].End() == b == runs[j].base
  {
    forall i, j | 0 <= i < |runs| && 0 <= j < |runs|
      ensures !(runs[i].End() == b == runs[j].base)
    {
      assert runs[i].length > 0;
    }
  }

  // ---- the map of a capture is sound ----

  lemma {:induction false} EntryRoundTrips(summary: AcquisitionSummary)
    requires SpansFit(summary.unreadable)
    ensures var m := MapOf(summary);
            && |m.ranges| == |summary.ranges| && |m.unreadable| == |summary.unreadable|
            && (forall i :: 0 <= i < |m.ranges| ==>
                  && m.ranges[i].ParseStart() == Some(summary.ranges[i].base)
                  && StartOf(m.ranges[i]) == summary.ranges[i].base
                  && EndOf(m.ranges[i]) == summary.ranges[i].End()
                  && m.ranges[i].driverRun == summary.ranges[i].driverIndex
                  && m.ranges[i].length == summary.ranges[i].length)
            && (forall k :: 0 <= k < |m.unreadable| ==>
                  && m.unreadable[k].ParseStart() == Some(summary.unreadable[k].start)
                  && SpanStart(m.unreadable[k]) == summary.unreadable[k].start
                  && SpanEnd(m.unreadable[k]) == summary.unreadable[k].End()
                  && m.unreadable[k].length == summary.unreadable[k].length
                  && m.unreadable[k].ParseNtstatus() == Some(StatusBits(summary.unreadable[k].status)))
  {
    var m := MapOf(summary);
    forall i | 0 <= i < |m.ranges|
      ensures m.ranges[i].ParseStart() == Some(summary.ranges[i].base)
    {
      Hex64RoundTrip(summary.ranges[i].base);
    }
    forall k | 0 <= k < |m.unreadable|
      ensures m.unreadable[k].ParseStart() == Some(summary.unreadable[k].start)
      ensures m.unreadable[k].ParseNtstatus() == Some(StatusBits(summary.unreadable[k].status))
    {
      Hex64RoundTrip(summary.unreadable[k].start);
      StatusRoundTrip(summary.unreadable[k].status);
    }
  }

  lemma {:induction false} RangeSumIsSumLengths(runs: seq<MemoryRun>, n: nat)
    requires n <= |runs|
    ensures RangeSumTo(RangeEntries(runs), n) == SumLengths(runs[..n])
  {
    if n > 0 {
      RangeSumIsSumLengths(runs, n - 1);
      assert runs[..n][..n - 1] == runs[..n - 1];
    }
  }

  lemma {:induction false} SpanSumIsSpanBytes(spans: seq<Span>, n: nat)
    requires SpansFit(spans) && n <= |spans|
    ensures SpanSumTo(UnreadableEntries(spans), n) == SpanBytes(spans[..n])
  {
    if n > 0 {
      SpanSumIsSpanBytes(spans, n - 1);
      assert spans[..n][..n - 1] == spans[..n - 1];
    }
  }

  lemma {:induction false} RangesOfCaptureAddUp(t: Topology, summary: AcquisitionSummary)
    requires SpansFit(summary.unreadable) && summary.ranges == t.runs
    ensures RangeSumTo(MapOf(summary).ranges, |t.runs|) == SumLengths(t.runs)
  {
    RangeSumIsSumLengths(t.runs, |t.runs|);
    assert t.runs[..|t.runs|] == t.runs;
  }

  lemma {:induction false} RangesOfCaptureSound(table: seq<PhysicalRange>, t: Topology, summary: AcquisitionSummary)
    requires Normalizes(table, t) && SpansFit(summary.unreadable)
    requires summary.ranges == t.runs && summary.logicalSize == t.highestEnd && summary.physicalBytes == t.totalBytes
    ensures RangesSound(MapOf(summary))
  {
    var m := MapOf(summary);
    EntryRoundTrips(summary);
    NormalizedTotals(table, t);
    NormalizedRunsAreEntries(table, t);
    HighestEndIsLastEnd(t.runs);
    HighestEndBounds(t.runs);
    RangesOfCaptureAddUp(t, summary);
    assert EndOf(m.ranges[|t.runs| - 1]) == m.logicalSize;
  }

  lemma {:induction false} SpansOfCaptureAddUp(summary: AcquisitionSummary, segs: seq<Segment>)
    requires SpansFit(summary.unreadable)
    requires summary.unreadable == Coalesce(segs) && summary.unreadableBytes == LostBytes(segs)
    ensures SpanSum(MapOf(summary).unreadable) == summary.unreadableBytes
  {
    var n := |summary.unreadable|;
    CoalesceBytes(segs);
    SpanSumIsSpanBytes(summary.unreadable, n);
    assert summary.unreadable[..n] == summary.unreadable;
  }

  /** The recorded spans ascend, parse and add up. */
  lemma {:induction false} SpansOfCaptureOrdered(summary: AcquisitionSummary, segs: seq<Segment>)
    requires SpansFit(summary.unreadable) && Ascending(segs)
    requires summary.unreadable == Coalesce(segs) && summary.unreadableBytes == LostBytes(segs)
    ensures var m := MapOf(summary);
            && |m.unreadable| == |summary.unreadable|
            && (forall i :: 0 <= i < |m.unreadable| ==>
                  && m.unreadable[i].ParseStart().Some? && m.unreadable[i].ParseNtstatus().Some?
                  && m.unreadable[i].length > 0)
            && (forall i, j :: 0 <= i < j < |m.unreadable| ==> SpanEnd(m.unreadable[i]) <= SpanStart(m.unreadable[j]))
            && SpanSum(m.unreadable) == m.unreadableBytes
  {
    var m := MapOf(summary);
    EntryRoundTrips(summary);
    CoalesceCanonical(segs);
    SpansOfCaptureAddUp(summary, segs);
    forall i, j | 0 <= i < j < |summary.unreadable|
      ensures SpanEnd(m.unreadable[i]) <= SpanStart(m.unreadable[j])
    {
      CanonicalAscends(summary.unreadable, i, j);
    }
  }

  lemma {:induction false} SpansOfCaptureSound(summary: AcquisitionSummary, segs: seq<Segment>)
    requires SpansFit(summary.unreadable) && Ascending(segs)
    requires summary.unreadable == Coalesce(segs) && summary.unreadableBytes == LostBytes(segs)
    ensures SpansSound(MapOf(summary)) <==> SpansInRuns(summary.ranges, summary.unreadable)
  {
    var m := MapOf(summary);
    SpansOfCaptureOrdered(summary, segs);
    if SpansInRuns(summary.ranges, summary.unreadable) {
      forall k | 0 <= k < |m.unreadable|
        ensures InOneRange(m, m.unreadable[k])
      {
        SameContainment(summary, k);
      }
    }
    if SpansSound(m) {
      forall k | 0 <= k < |summary.unreadable|
        ensures InOneRun(summary.ranges, summary.unreadable[k])
      {
        assert InOneRange(m, m.unreadable[k]);
        SameContainment(summary, k);
      }
    }
  }

  lemma {:induction false} SameContainment(summary: AcquisitionSummary, k: nat)
    requires SpansFit(summary.unreadable) && k < |summary.unreadable|
    ensures InOneRange(MapOf(summary), MapOf(summary).unreadable[k]) <==> InOneRun(summary.ranges, summary.unreadable[k])
  {
    var m := MapOf(summary);
    var s := summary.unreadable[k];
    EntryRoundTrips(summary);
    if InOneRun(summary.ranges, s) {
      var i :| 0 <= i < |summary.ranges| && summary.ranges[i].base <= s.start && s.End() <= summary.ranges[i].End();
      assert StartOf(m.ranges[i]) <= SpanStart(m.unreadable[k]);
    }
    if InOneRange(m, m.unreadable[k]) {
      var i :| 0 <= i < |m.ranges| && StartOf(m.ranges[i]) <= SpanStart(m.unreadable[k])
               && SpanEnd(m.unreadable[k]) <= EndOf(m.ranges[i]);
      assert summary.ranges[i].base <= s.start;
    }
  }

  /** What was lost reads as zero in the image. */
  lemma {:induction false} LostReadsZero(segs: seq<Segment>, a: int, status: i32)
    requires Ascending(segs) && LostAt(segs, a, status)
    ensures ByteAt(segs, a) == 0
  {
    if ByteAt(segs, a) != 0 {
      NonZeroWasGot(segs, a);
    }
  }

  lemma {:induction false} LostSpanReadsZero(segs: seq<Segment>, k: nat, size: nat, i: nat)
    requires Ascending(segs) && k < |Coalesce(segs)| && i < Coalesce(segs)[k].length
    requires Coalesce(segs)[k].End() <= size
    ensures ImageOf(segs, size)[Coalesce(segs)[k].start + i] == 0
  {
    var s := Coalesce(segs)[k];
    SpanBytesAreLost(segs, k);
    assert s.Covers(s.start + i);
    LostReadsZero(segs, s.start + i, s.status);
  }

  lemma {:induction false} CaptureIsZeroBacked(summary: AcquisitionSummary, segs: seq<Segment>, size: nat)
    requires SpansFit(summary.unreadable) && Ascending(segs) && summary.unreadable == Coalesce(segs)
    requires SpansInFile(ImageOf(segs, size), MapOf(summary).unreadable)
    ensures ZeroBacked(ImageOf(segs, size), MapOf(summary).unreadable)
  {
    var m := MapOf(summary);
    EntryRoundTrips(summary);
    forall k | 0 <= k < |m.unreadable|
      ensures AllZero(BytesOf(ImageOf(segs, size), m.unreadable[k]))
    {
      forall i | 0 <= i < m.unreadable[k].length
        ensures BytesOf(ImageOf(segs, size), m.unreadable[k])[i] == 0
      {
        LostSpanReadsZero(segs, k, size, i);
      }
    }
  }

  lemma {:induction false} HexWordIsFirst(hex: string, rest: string)
    requires forall i :: 0 <= i < |hex| ==> IsHexDigit(hex[i])
    requires |rest| > 0 && IsWhitespace(rest[0])
    ensures UpToSpace(hex + rest) == hex
  {
    if |hex| > 0 {
      assert (hex + rest)[1..] == hex[1..] + rest;
      HexWordIsFirst(hex[1..], rest);
    } else {
      assert hex + rest == rest;
    }
  }

  /** The sidecar's first word is the digest. */
  lemma {:induction false} SidecarNamesDigest(sha256: string, fileName: string)
    requires IsSha256Hex(sha256)
    ensures FirstWord(SidecarText(sha256, fileName)) == sha256
  {
    var rest := "  " + fileName + "\n";
    assert SidecarText(sha256, fileName) == sha256 + rest;
    assert rest[0] == ' ';
    HexWordIsFirst(sha256, rest);
    assert !IsWhitespace(sha256[0]);
  }

  // ---- the published bundle ----

  /** Both queries of a capture served by one session give the same topology. */
  lemma {:induction false} QueriesAgree(lim: Limits, codec: Codec, table: seq<PhysicalRange>, current: seq<PhysicalRange>,
                                        calls: seq<Call>, first: Topology, summary: AcquisitionSummary,
                                        probes: seq<Probe>, image: seq<byte>)
    requires lim.Valid() && Acquired(lim, codec.digest, calls, first, summary, probes, image)
    requires ServedByDriver(table, current, lim.transfer, calls)
    ensures Normalizes(table, first)
    ensures first == Topology(summary.logicalSize, summary.physicalBytes, summary.ranges)
  {
    var t := Topology(summary.logicalSize, summary.physicalBytes, summary.ranges);
    assert calls[1] == calls[1..][0] == QueryCall(Some(t));
    assert !EndedBefore(calls, 0) && !EndedBefore(calls, 1);
    assert Granted(table, current, lim.transfer, calls, 0) && Granted(table, current, lim.transfer, calls, 1);
    NormalizationUnique(table, first, t);
  }

  /** The contents of a finalized bundle meet every check but, perhaps, the containment of the spans. */
  lemma {:induction false} BundleContentsSound(lim: Limits, codec: Codec, table: seq<PhysicalRange>, t: Topology,
                                               calls: seq<Call>, summary: AcquisitionSummary, probes: seq<Probe>)
    requires lim.Valid() && Normalizes(table, t) && SpansFit(summary.unreadable) && Writable(summary)
    requires t == Topology(summary.logicalSize, summary.physicalBytes, summary.ranges)
    requires Summarizes(lim, calls, summary, probes)
    requires summary.sha256 == HexEncode(codec.digest(ImageOf(History(lim, summary, probes), summary.logicalSize)))
    requires SpansInRuns(summary.ranges, summary.unreadable)
    ensures BundleSound(codec.digest, ImageOf(History(lim, summary, probes), summary.logicalSize), MapOf(summary),
                        None)
  {
    var segs := History(lim, summary, probes);
    var raw := ImageOf(segs, summary.logicalSize);
    var m := MapOf(summary);
    FinishedPartitions(lim, t.runs, probes);
    RangesOfCaptureSound(table, t, summary);
    SpansOfCaptureSound(summary, segs);
    DigestEncodesToSha256Hex(codec.digest(raw));
    SoundSpansInFile(raw, m);
    CaptureIsZeroBacked(summary, segs, summary.logicalSize);
  }

  /** The three published files, read back, are the image, the map and the sidecar. */
  lemma {:induction false} PublishedFilesReadBack(codec: Codec, outputPath: string, base: Disk, raw: seq<byte>,
                                                  m: MapFile, sidecar: string)
    requires Lawful(codec)
    ensures var paths := BuildEvidencePaths(outputPath);
            var disk := PublishedDisk(paths, base, raw, codec.utf8(codec.render(m)), codec.utf8(sidecar));
            && paths.rawFinal in disk && disk[paths.rawFinal] == raw
            && TextOf(codec, disk, paths.mapFinal) == Some(codec.render(m))
            && TextOf(codec, disk, paths.hashFinal) == Some(sidecar)
  {
    PathsDistinct(outputPath);
  }

  /**
   What the producer publishes the verifier accepts, unless a span runs across two touching runs; and
   the map says the same about completeness as the producer's status.
   */
  lemma {:induction false} PublishedIsAcceptable(lim: Limits, codec: Codec, table: seq<PhysicalRange>,
                                                 current: seq<PhysicalRange>, outputPath: string, base: Disk, disk: Disk,
                                                 calls: seq<Call>, status: EvidenceCaptureStatus, first: Topology,
                                                 summary: AcquisitionSummary, probes: seq<Probe>, image: seq<byte>)
    requires lim.Valid() && Lawful(codec)
    requires Finalized(lim, codec, outputPath, base, disk, calls, status, first, summary, probes, image)
    requires ServedByDriver(table, current, lim.transfer, calls)
    ensures var paths := BuildEvidencePaths(outputPath);
            Acceptable(codec, disk, paths.rawFinal, paths.mapFinal, Some(paths.hashFinal), MapOf(summary))
            <==> forall b :: !LostAcross(summary.ranges, History(lim, summary, probes), b)
    ensures MapOf(summary).status == if status.Complete? then "complete" else "incomplete"
    ensures outputPath in disk && |disk[outputPath]| == summary.logicalSize
            && summary.sha256 == HexEncode(codec.digest(disk[outputPath]))
  {
    var segs := History(lim, summary, probes);
    var m := MapOf(summary);
    QueriesAgree(lim, codec, table, current, calls, first, summary, probes, image);
    FinishedPartitions(lim, summary.ranges, probes);
    SpansInRunsIffNothingLostAcross(summary.ranges, segs);
    SpansOfCaptureSound(summary, segs);
    PublishedFilesReadBack(codec, outputPath, base, image, m, SidecarText(summary.sha256, FileName(outputPath)));
    if SpansInRuns(summary.ranges, summary.unreadable) {
      BundleContentsSound(lim, codec, table, first, calls[1..], summary, probes);
      SidecarNamesDigest(summary.sha256, FileName(outputPath));
    }
  }

  // ---- touching runs ----

  lemma {:induction false} NothingLostAcrossNoSeam(runs: seq<MemoryRun>, segs: seq<Segment>)
    requires NoneTouch(runs)
    ensures forall b :: !LostAcross(runs, segs, b)
  {
  }

  ghost predicate AllFailed(probes: seq<Probe>, status: i32) {
    forall k :: 0 <= k < |probes| ==> probes[k].result.copied == 0 && probes[k].result.copyStatus == status
  }

  /** A device that never delivers a byte still lets the walk finish. */
  lemma {:induction false} FailingReadsFinish(lim: Limits, runs: seq<MemoryRun>, probes: seq<Probe>, status: i32)
    returns (all: seq<Probe>)
    requires lim.Valid() && Sane(runs) && Conforming(lim, runs, probes) && AllFailed(probes, status)
    ensures Conforming(lim, runs, all) && AllFailed(all, status) && Finished(runs, Replay(lim, runs, all))
    decreases var w := Replay(lim, runs, probes);
              if Active(runs, w) then 2 * (SumLengths(runs) - Processed(runs, w)) + (if w.phase.Bulk? then 1 else 0) else 0
  {
    var w := Replay(lim, runs, probes);
    AlwaysLocated(lim, runs, probes);
    if Finished(runs, w) {
      return probes;
    }
    var nothing := ReadResult(Here(runs, w), NextLength(lim, runs, w), 0, status, []);
    var probe := Probe(NextRequest(lim, runs, w), nothing);
    ActiveHasBytesLeft(runs, w);
    ConformingExtends(lim, runs, probes, probe);
    StepAccounts(lim, runs, w, nothing);
    all := FailingReadsFinish(lim, runs, probes + [probe], status);
  }

  /** After nothing but failed reads every byte of the runs is lost with their status. */
  lemma {:induction false} AllFailedAllLost(lim: Limits, runs: seq<MemoryRun>, probes: seq<Probe>, status: i32, a: int)
    requires lim.Valid() && SortedDisjoint(runs) && Conforming(lim, runs, probes) && AllFailed(probes, status)
    requires Finished(runs, Replay(lim, runs, probes)) && InRuns(runs, a)
    ensures LostAt(Replay(lim, runs, probes).segments, a, status)
  {
    var segs := Replay(lim, runs, probes).segments;
    FinishedPartitions(lim, runs, probes);
    EverySegmentJustified(lim, runs, probes);
    assert Covered(segs, a);
    var i :| 0 <= i < |segs| && segs[i].Covers(a);
    assert Justified(lim, probes, segs[i]);
  }

  /** The spans of every finished walk, whatever the device answered, lie in single runs. */
  ghost predicate AlwaysInRuns(lim: Limits, runs: seq<MemoryRun>)
    requires lim.Valid()
  {
    forall probes :: Conforming(lim, runs, probes) && Finished(runs, Replay(lim, runs, probes)) ==>
                       SpansInRuns(runs, Coalesce(Replay(lim, runs, probes).segments))
  }

  /** Where two runs touch, a device all of whose reads fail makes a span that is in no run. */
  lemma {:induction false} TouchingRunsBreak(lim: Limits, runs: seq<MemoryRun>, i: nat, j: nat) returns (probes: seq<Probe>)
    requires lim.Valid() && Sane(runs) && SortedDisjoint(runs)
    requires i < |runs| && j < |runs| && runs[i].End() == runs[j].base
    ensures Conforming(lim, runs, probes) && Finished(runs, Replay(lim, runs, probes))
    ensures !SpansInRuns(runs, Coalesce(Replay(lim, runs, probes).segments))
  {
    var b := runs[j].base;
    probes := FailingReadsFinish(lim, runs, [], -1);
    assert runs[i].Covers(b - 1) && runs[j].Covers(b);
    AllFailedAllLost(lim, runs, probes, -1, b - 1);
    AllFailedAllLost(lim, runs, probes, -1, b);
    assert LostAcross(runs, Replay(lim, runs, probes).segments, b);
    FinishedPartitions(lim, runs, probes);
    SpansInRunsIffNothingLostAcross(runs, Replay(lim, runs, probes).segments);
  }

  /** Touching runs are exactly what lets a fault pattern make a bundle the verifier rejects. */
  lemma {:induction false} AlwaysInRunsIffNoneTouch(lim: Limits, runs: seq<MemoryRun>)
    requires lim.Valid() && Sane(runs) && SortedDisjoint(runs)
    ensures AlwaysInRuns(lim, runs) <==> NoneTouch(runs)
  {
    if NoneTouch(runs) {
      forall probes | Conforming(lim, runs, probes) && Finished(runs, Replay(lim, runs, probes))
        ensures SpansInRuns(runs, Coalesce(Replay(lim, runs, probes).segments))
      {
        var segs := Replay(lim, runs, probes).segments;
        FinishedPartitions(lim, runs, probes);
        NothingLostAcrossNoSeam(runs, segs);
        SpansInRunsIffNothingLostAcross(runs, segs);
      }
    } else {
      var i, j :| 0 <= i < |runs| && 0 <= j < |runs| && runs[i].End() == runs[j].base;
      var probes := TouchingRunsBreak(lim, runs, i, j);
    }
  }

  /** Whether two runs touch does not depend on the order of the table. */
  lemma {:induction false} NoneTouchIgnoresOrder(a: seq<MemoryRun>, b: seq<MemoryRun>)
    requires multiset(a) == multiset(b) && NoneTouch(a)
    ensures NoneTouch(b)
  {
    forall i, j | 0 <= i < |b| && 0 <= j < |b|
      ensures b[i].End() != b[j].base
    {
      assert b[i] in multiset(a) && b[j] in multiset(a);
    }
  }

  // ---- when a capture ends well ----

  /** The driver's table is accepted and its topology fits the volume. */
  ghost predicate Capturable(table: seq<PhysicalRange>, volume: Volume) {
    exists t :: Normalizes(table, t) && Admits(volume, t.highestEnd, t.totalBytes)
  }

  /** After a query the session serves as before. */
  lemma {:induction false} ServedAfterQuery(table: seq<PhysicalRange>, current: seq<PhysicalRange>, maxTransfer: nat,
                                            calls: seq<Call>)
    requires |calls| > 0 && calls[0].QueryCall? && NoneRefused(table, current, maxTransfer, calls)
    ensures NoneRefused(table, current, maxTransfer, calls[1..])
  {
    var rest := calls[1..];
    forall k | 0 <= k < |rest|
      ensures Granted(table, current, maxTransfer, rest, k)
    {
      assert Granted(table, current, maxTransfer, calls, k + 1);
      if EndedBefore(calls, k + 1) {
        var j :| 0 <= j < k + 1 && calls[j].EndCall? && calls[j].changed.Some?;
        assert rest[j - 1].EndCall?;
      }
      if EndedBefore(rest, k) {
        var j :| 0 <= j < k && rest[j].EndCall? && rest[j].changed.Some?;
        assert calls[j + 1].EndCall?;
      }
    }
  }

  /** A driver none of whose calls the system refuses never makes a capture impossible. */
  lemma {:induction false} DriverMakesPossible(lim: Limits, volume: Volume, table: seq<PhysicalRange>,
                                               current: seq<PhysicalRange>, calls: seq<Call>, probes: seq<Probe>)
    requires lim.Valid() && Capturable(table, volume) && NoneRefused(table, current, lim.transfer, calls)
    ensures !Impossible(lim, volume, calls, probes)
  {
    if |calls| > 0 && calls[0].QueryCall? {
      var t :| Normalizes(table, t) && Admits(volume, t.highestEnd, t.totalBytes);
      assert !EndedBefore(calls, 0);
      assert Granted(table, current, lim.transfer, calls, 0);
      assert calls[0].topology.Some?;
      NormalizationUnique(table, t, calls[0].topology.value);
      var rest := calls[1..];
      ServedAfterQuery(table, current, lim.transfer, calls);
      DriverNeverRejects(lim, table, current, rest, probes, t, t.highestEnd);
      if Misstated(rest) {
        assert !EndedBefore(rest, 0);
        assert Granted(table, current, lim.transfer, rest, 0);
        NormalizedTotals(table, rest[0].topology.value);
      }
    }
  }

  /** The verifier could not read the files. */
  ghost predicate Unread(files: FileAccess, verdict: Result<MapFile, VerificationError>) {
    verdict == Err(Io) && files.Failing()
  }

  /** What the verifier says of a bundle that was finalized over the driver. */
  lemma {:induction false} FinalizedVerdict(lim: Limits, codec: Codec, table: seq<PhysicalRange>,
                                            current: seq<PhysicalRange>, outputPath: string, base: Disk, disk: Disk,
                                            calls: seq<Call>, status: EvidenceCaptureStatus, first: Topology,
                                            summary: AcquisitionSummary, probes: seq<Probe>, image: seq<byte>,
                                            files: FileAccess, verdict: Result<MapFile, VerificationError>)
    requires lim.Valid() && Lawful(codec)
    requires Finalized(lim, codec, outputPath, base, disk, calls, status, first, summary, probes, image)
    requires ServedByDriver(table, current, lim.transfer, calls)
    requires var paths := BuildEvidencePaths(outputPath);
             && (verdict.Ok? ==>
                   Acceptable(codec, disk, paths.rawFinal, paths.mapFinal, Some(paths.hashFinal), verdict.value))
             && (verdict.Err? ==>
                   || Unread(files, verdict)
                   || forall m :: !Acceptable(codec, disk, paths.rawFinal, paths.mapFinal, Some(paths.hashFinal), m))
    ensures || Unread(files, verdict)
            || (verdict.Ok? <==> forall b :: !LostAcross(summary.ranges, History(lim, summary, probes), b))
    ensures |table| <= U32_MAX && NoneTouch(Indexed(table)) ==> verdict.Ok? || Unread(files, verdict)
    ensures verdict.Ok? ==> verdict.value.status == if status.Complete? then "complete" else "incomplete"
  {
    QueriesAgree(lim, codec, table, current, calls, first, summary, probes, image);
    PublishedIsAcceptable(lim, codec, table, current, outputPath, base, disk, calls, status, first, summary, probes,
                          image);
    PublishedFilesReadBack(codec, outputPath, base, image, MapOf(summary),
                           SidecarText(summary.sha256, FileName(outputPath)));
    if |table| <= U32_MAX && NoneTouch(Indexed(table)) {
      NoneTouchIgnoresOrder(Indexed(table), summary.ranges);
      NothingLostAcrossNoSeam(summary.ranges, History(lim, summary, probes));
    }
  }

  /**
   Capture, then verify, over a device that answers like a driver session on a table, whatever its memory
   holds and whichever of its pages fail.  The capture ends well unless something is refused, the user
   cancels, or table, volume or path are no good.  When it ends well the verifier accepts the three
   published files exactly when nothing was lost across a seam between touching runs, so always when no
   two entries of the table touch, unless it cannot read them; and the map it returns names the status of
   the capture.
   */
  method CaptureThenVerify(codec: Codec, fs: FileSystem, volume: Volume, device: Device, outputPath: string,
                           format: OutputFormat, cancelled: CancelFlag, lim: Limits, rateLimitMBps: u32,
                           hashRefuses: nat -> bool, nameConvertible: bool, files: FileAccess,
                           ghost table: seq<PhysicalRange>, ghost current: seq<PhysicalRange>)
    returns (status: EvidenceCaptureStatus, verdict: Result<MapFile, VerificationError>,
             summary: AcquisitionSummary, ghost probes: seq<Probe>)
    requires lim.Valid() && IsPowerOfTwo(lim.page) && Lawful(codec)
    requires fs.Valid() && SelectFormat(format, outputPath) == Raw
    requires device.Genuine() && !EndedBefore(device.log, |device.log|)
    requires AnswersLikeDriver(device.oracle, table, current, lim.transfer)
    modifies fs, device, cancelled
    ensures && Capturable(table, volume) && FreePath(nameConvertible, outputPath, old(fs.files))
            && NeverRefuses(device.oracle, table, current, lim.transfer)
            && Untroubled(fs, hashRefuses, cancelled)
            ==> Ended(status)
    ensures Ended(status) ==>
              || Unread(files, verdict)
              || (verdict.Ok? <==> forall b :: !LostAcross(summary.ranges, History(lim, summary, probes), b))
    ensures Ended(status) && |table| <= U32_MAX && NoneTouch(Indexed(table)) ==> verdict.Ok? || Unread(files, verdict)
    ensures Ended(status) && verdict.Ok? ==>
              verdict.value.status == if status.Complete? then "complete" else "incomplete"
  {
    ghost var first, image;
    status, summary, first, probes, image :=
      CaptureEvidenceToFile(codec, fs, volume, device, outputPath, format, cancelled, lim, rateLimitMBps,
                            hashRefuses, nameConvertible);
    var paths := BuildEvidencePaths(outputPath);
    verdict := VerifyBundle(codec, fs.files, paths.rawFinal, paths.mapFinal, Some(paths.hashFinal), files);
    ghost var calls := device.log[|old(device.log)|..];
    EndedInPrefix(old(device.log), device.log);
    LikeDriverIsServed(device.oracle, table, current, lim.transfer, device.log, |old(device.log)|);
    if Ended(status) {
      FinalizedVerdict(lim, codec, table, current, outputPath, old(fs.files), fs.files, calls, status, first, summary,
                       probes, image, files, verdict);
    } else if Capturable(table, volume) && NeverRefuses(device.oracle, table, current, lim.transfer) {
      DriverMakesPossible(lim, volume, table, current, calls, probes);
      if Untroubled(fs, hashRefuses, cancelled) {
        UntroubledIsNotRefused(fs, old(fs.Faults()), hashRefuses, cancelled);
      }
    }
  }
}
