/**
 The read policy of the acquisition engine as a machine: where the next device read goes and what
 its answer does to the position and to the history.  The loops of the engine drive this machine
 one device read at a time; what is promised for every run is proved here, about every sequence
 of answers a device can give.
 */
module Engine {
  import opened Words
  import opened Runs
  import opened Segments

  datatype ReadRequest = ReadRequest(runIndex: u32, offset: u64, length: u32)

  datatype ReadResult = ReadResult(
    physicalAddress: u64, requested: u32, copied: u32, copyStatus: i32, data: seq<byte>)

  /** The only filter between a device's answer and the evidence. */
  predicate ValidateReadResult(result: ReadResult, expectedPhysicalAddress: u64, requestedBytes: u32) {
    && result.physicalAddress == expectedPhysicalAddress
    && result.requested == requestedBytes
    && result.copied <= requestedBytes
    && |result.data| == result.copied
  }

  /** Page size and largest transfer: 4096 bytes and 16 MiB in the product. */
  datatype Limits = Limits(page: u32, transfer: u32) {
    ghost predicate Valid() {
      page > 0 && transfer > 0
    }
  }

  /** Reading in bulk, or isolating the unread rest of a short bulk read page by page. */
  datatype Phase = Bulk | Isolating(windowEnd: nat)

  datatype Walk = Walk(run: nat, offset: nat, phase: Phase, segments: seq<Segment>)

  /** One device read that was answered and accepted. */
  datatype Probe = Probe(request: ReadRequest, result: ReadResult)

  const START := Walk(0, 0, Bulk, [])

  /** The walk stands inside a run, and inside the window it is isolating. */
  predicate Active(runs: seq<MemoryRun>, w: Walk) {
    && w.run < |runs|
    && w.offset < runs[w.run].length
    && runs[w.run].End() <= U64_MAX
    && (w.phase.Isolating? ==> w.offset < w.phase.windowEnd <= runs[w.run].length)
  }

  /** The physical address the walk stands at. */
  function Here(runs: seq<MemoryRun>, w: Walk): u64
    requires Active(runs, w)
  {
    runs[w.run].base + w.offset
  }

  /** Bulk reads go as far as a transfer may; isolating reads stop at the page and at the window. */
  function NextLength(lim: Limits, runs: seq<MemoryRun>, w: Walk): (length: u32)
    requires lim.Valid() && Active(runs, w)
    ensures 0 < length <= runs[w.run].length - w.offset
    ensures w.phase.Isolating? ==> w.offset + length <= w.phase.windowEnd
    ensures w.phase.Isolating? ==> Here(runs, w) % lim.page + length <= lim.page
    ensures w.phase.Bulk? ==> length <= lim.transfer
  {
    match w.phase
    case Bulk => Min(lim.transfer, runs[w.run].length - w.offset)
    case Isolating(windowEnd) => Min(lim.page - Here(runs, w) % lim.page, windowEnd - w.offset)
  }

  function NextRequest(lim: Limits, runs: seq<MemoryRun>, w: Walk): ReadRequest
    requires lim.Valid() && Active(runs, w)
  {
    ReadRequest(runs[w.run].driverIndex, w.offset, NextLength(lim, runs, w))
  }

  predicate Accepts(lim: Limits, runs: seq<MemoryRun>, w: Walk, result: ReadResult)
    requires lim.Valid() && Active(runs, w)
  {
    ValidateReadResult(result, Here(runs, w), NextLength(lim, runs, w))
  }

  /** Bulk reading from `offset`; past the end of the run it continues at the next run. */
  function Settle(runs: seq<MemoryRun>, run: nat, offset: nat, segments: seq<Segment>): Walk
    requires run < |runs|
  {
    if offset < runs[run].length then Walk(run, offset, Bulk, segments)
    else Walk(run + 1, 0, Bulk, segments)
  }

  function Step(lim: Limits, runs: seq<MemoryRun>, w: Walk, result: ReadResult): Walk
    requires lim.Valid() && Active(runs, w) && Accepts(lim, runs, w, result)
  {
    var requested := NextLength(lim, runs, w);
    var address := Here(runs, w);
    var offset := w.offset + result.copied;
    var segments := if result.copied == 0 then w.segments else w.segments + [Got(address, result.data)];
    match w.phase
    case Bulk =>
      if result.copied == requested then Settle(runs, w.run, offset, segments)
      else Walk(w.run, offset, Isolating(w.offset + requested), segments)
    case Isolating(windowEnd) =>
      if result.copied == requested then
        // A whole page came back: return to bulk reading.
        Settle(runs, w.run, offset, segments)
      else if result.copied != 0 then
        Walk(w.run, offset, w.phase, segments)
      else
        var lost := w.segments + [Lost(address, requested, result.copyStatus)];
        if w.offset + requested < windowEnd then Walk(w.run, w.offset + requested, w.phase, lost)
        else Settle(runs, w.run, w.offset + requested, lost)
  }

  /** The walk after a sequence of answered reads. */
  function Replay(lim: Limits, runs: seq<MemoryRun>, probes: seq<Probe>): Walk
    requires lim.Valid()
  {
    if |probes| == 0 then START
    else
      var w := Replay(lim, runs, probes[..|probes| - 1]);
      var result := probes[|probes| - 1].result;
      if Active(runs, w) && Accepts(lim, runs, w, result) then Step(lim, runs, w, result) else w
  }

  /** Every read was the one the policy asks for, and its answer was accepted. */
  ghost predicate Conforming(lim: Limits, runs: seq<MemoryRun>, probes: seq<Probe>)
    requires lim.Valid()
  {
    |probes| == 0 ||
    var n := |probes| - 1;
    var w := Replay(lim, runs, probes[..n]);
    && Conforming(lim, runs, probes[..n])
    && Active(runs, w)
    && probes[n].request == NextRequest(lim, runs, w)
    && Accepts(lim, runs, w, probes[n].result)
  }

  /** The walk has passed every run. */
  predicate Finished(runs: seq<MemoryRun>, w: Walk) {
    w.run == |runs|
  }

  /** Bytes of the runs the walk has passed. */
  function Processed(runs: seq<MemoryRun>, w: Walk): nat
    requires w.run <= |runs|
  {
    SumLengths(runs[..w.run]) + w.offset
  }

  /** Bytes the history accounts for. */
  function Accounted(segs: seq<Segment>): nat {
    GotBytes(segs) + LostBytes(segs)
  }

  // ---- what every sequence of answers keeps ----

  lemma {:induction false} ConformingExtends(lim: Limits, runs: seq<MemoryRun>, probes: seq<Probe>, probe: Probe)
    requires lim.Valid() && Conforming(lim, runs, probes)
    requires var w := Replay(lim, runs, probes);
             Active(runs, w) && probe.request == NextRequest(lim, runs, w) && Accepts(lim, runs, w, probe.result)
    ensures Conforming(lim, runs, probes + [probe])
    ensures Replay(lim, runs, probes + [probe]) == Step(lim, runs, Replay(lim, runs, probes), probe.result)
  {
    var longer := probes + [probe];
    assert longer[..|longer| - 1] == probes;
  }

  ghost predicate Located(runs: seq<MemoryRun>, w: Walk) {
    && w.run <= |runs|
    && (w.run < |runs| ==> Active(runs, w))
    && (w.run == |runs| ==> w.offset == 0 && w.phase == Bulk)
  }

  /** The walk is inside a run or has passed them all: the engine can always ask for the next read. */
  lemma {:induction false} AlwaysLocated(lim: Limits, runs: seq<MemoryRun>, probes: seq<Probe>)
    requires lim.Valid() && Sane(runs) && Conforming(lim, runs, probes)
    ensures Located(runs, Replay(lim, runs, probes))
  {
    if |probes| > 0 {
      AlwaysLocated(lim, runs, probes[..|probes| - 1]);
    }
  }

  lemma {:induction false} StepAccounts(lim: Limits, runs: seq<MemoryRun>, w: Walk, result: ReadResult)
    requires lim.Valid() && Active(runs, w) && Accepts(lim, runs, w, result)
    ensures var w' := Step(lim, runs, w, result);
            && w'.run <= |runs|
            && Accounted(w'.segments) - Accounted(w.segments) == Processed(runs, w') - Processed(runs, w)
            && Processed(runs, w') >= Processed(runs, w)
            && (w.phase.Isolating? || w'.phase.Bulk? ==> Processed(runs, w') > Processed(runs, w))
  {
    var w' := Step(lim, runs, w, result);
    assert runs[..w.run + 1][..w.run] == runs[..w.run];
    if w'.segments != w.segments {
      assert w'.segments[..|w'.segments| - 1] == w.segments;
    }
  }

  /** Obtained plus lost bytes are exactly the bytes passed. */
  lemma {:induction false} Conservation(lim: Limits, runs: seq<MemoryRun>, probes: seq<Probe>)
    requires lim.Valid() && Conforming(lim, runs, probes)
    ensures var w := Replay(lim, runs, probes);
            w.run <= |runs| && Accounted(w.segments) == Processed(runs, w)
  {
    if |probes| > 0 {
      var init := probes[..|probes| - 1];
      Conservation(lim, runs, init);
      StepAccounts(lim, runs, Replay(lim, runs, init), probes[|probes| - 1].result);
    }
  }

  lemma {:induction false} ProbesPerByte(lim: Limits, runs: seq<MemoryRun>, probes: seq<Probe>)
    requires lim.Valid() && Conforming(lim, runs, probes)
    ensures var w := Replay(lim, runs, probes);
            w.run <= |runs| && |probes| <= 2 * Processed(runs, w) + (if w.phase.Bulk? then 0 else 1)
  {
    if |probes| > 0 {
      var init := probes[..|probes| - 1];
      ProbesPerByte(lim, runs, init);
      StepAccounts(lim, runs, Replay(lim, runs, init), probes[|probes| - 1].result);
    }
  }

  lemma {:induction false} ActiveHasBytesLeft(runs: seq<MemoryRun>, w: Walk)
    requires Active(runs, w)
    ensures Processed(runs, w) < SumLengths(runs)
  {
    assert runs[..w.run + 1][..w.run] == runs[..w.run];
    SumLengthsPrefix(runs, w.run + 1);
  }

  /**
   However the device answers, there are never more than two reads per byte of run length, even
   counting one more read that the device fails or that is not accepted.
   */
  lemma {:induction false} ReadBound(lim: Limits, runs: seq<MemoryRun>, probes: seq<Probe>)
    requires lim.Valid() && Conforming(lim, runs, probes)
    ensures |probes| <= 2 * SumLengths(runs)
    ensures Active(runs, Replay(lim, runs, probes)) ==> |probes| + 1 <= 2 * SumLengths(runs)
  {
    var w := Replay(lim, runs, probes);
    ProbesPerByte(lim, runs, probes);
    if Active(runs, w) {
      ActiveHasBytesLeft(runs, w);
    } else {
      assert w.phase.Bulk? && w.offset == 0 by {
        InactiveIsBetweenRuns(lim, runs, probes);
      }
      SumLengthsPrefix(runs, w.run);
    }
  }

  lemma {:induction false} InactiveIsBetweenRuns(lim: Limits, runs: seq<MemoryRun>, probes: seq<Probe>)
    requires lim.Valid() && Conforming(lim, runs, probes)
    ensures var w := Replay(lim, runs, probes); Active(runs, w) || (w.phase.Bulk? && w.offset == 0)
  {
    if |probes| > 0 {
      InactiveIsBetweenRuns(lim, runs, probes[..|probes| - 1]);
    }
  }

  // ---- coverage ----

  /** The walk has passed address `a`. */
  ghost predicate Passed(runs: seq<MemoryRun>, w: Walk, a: int)
    requires w.run <= |runs|
  {
    || InRuns(runs[..w.run], a)
    || (w.run < |runs| && runs[w.run].base <= a < runs[w.run].base + w.offset)
  }

  ghost predicate CoversPassed(runs: seq<MemoryRun>, w: Walk)
    requires w.run <= |runs|
  {
    forall a: int :: Covered(w.segments, a) <==> Passed(runs, w, a)
  }

  /** The history ascends, stays behind the walk, and covers exactly what the walk has passed. */
  ghost predicate Tiling(runs: seq<MemoryRun>, w: Walk) {
    && w.run <= |runs|
    && Ascending(w.segments)
    && (w.run < |runs| ==>
          forall i :: 0 <= i < |w.segments| ==> w.segments[i].End() <= runs[w.run].base + w.offset)
    && CoversPassed(runs, w)
  }

  lemma {:induction false} CoveredByOneMore(segs: seq<Segment>, s: Segment, a: int)
    ensures Covered(segs + [s], a) <==> Covered(segs, a) || s.Covers(a)
  {
    var more := segs + [s];
    if Covered(segs, a) {
      var i :| 0 <= i < |segs| && segs[i].Covers(a);
      assert more[i].Covers(a);
    }
    if s.Covers(a) {
      assert more[|segs|].Covers(a);
    }
    if Covered(more, a) && !s.Covers(a) {
      var i :| 0 <= i < |more| && more[i].Covers(a);
      assert segs[i].Covers(a);
    }
  }

  /** Moving on within the run by the length of one new segment. */
  lemma {:induction false} TilingGrows(runs: seq<MemoryRun>, w: Walk, s: Segment, w': Walk)
    requires Active(runs, w) && Tiling(runs, w)
    requires s.start == Here(runs, w) && s.Length() > 0 && w.offset + s.Length() <= runs[w.run].length
    requires w'.run == w.run && w'.offset == w.offset + s.Length() && w'.segments == w.segments + [s]
    ensures Tiling(runs, w')
  {
    forall a: int
      ensures Covered(w'.segments, a) <==> Passed(runs, w', a)
    {
      CoveredByOneMore(w.segments, s, a);
      assert Covered(w.segments, a) <==> Passed(runs, w, a);
    }
  }

  lemma {:induction false} PassedWholeRun(runs: seq<MemoryRun>, run: nat, a: int)
    requires run < |runs|
    ensures InRuns(runs[..run + 1], a) <==> InRuns(runs[..run], a) || runs[run].Covers(a)
  {
    var upTo := runs[..run + 1];
    if InRuns(runs[..run], a) {
      var i :| 0 <= i < run && runs[..run][i].Covers(a);
      assert upTo[i].Covers(a);
    }
    if runs[run].Covers(a) {
      assert upTo[run].Covers(a);
    }
    if InRuns(upTo, a) && !runs[run].Covers(a) {
      var i :| 0 <= i < run + 1 && upTo[i].Covers(a);
      assert runs[..run][i].Covers(a);
    }
  }

  /** Standing at the end of a run is the same as standing at the start of the next one. */
  lemma {:induction false} TilingSettles(runs: seq<MemoryRun>, w: Walk, w': Walk)
    requires SortedDisjoint(runs) && w.run < |runs| && w.offset == runs[w.run].length && Tiling(runs, w)
    requires w' == Walk(w.run + 1, 0, Bulk, w.segments)
    ensures Tiling(runs, w')
  {
    forall a: int
      ensures Covered(w'.segments, a) <==> Passed(runs, w', a)
    {
      assert Covered(w.segments, a) <==> Passed(runs, w, a);
      PassedWholeRun(runs, w.run, a);
    }
  }

  /** The phase plays no part in what is covered. */
  lemma {:induction false} TilingIgnoresPhase(runs: seq<MemoryRun>, w: Walk, w': Walk)
    requires Tiling(runs, w)
    requires w'.run == w.run && w'.offset == w.offset && w'.segments == w.segments
    ensures Tiling(runs, w')
  {
    forall a: int
      ensures Covered(w'.segments, a) <==> Passed(runs, w', a)
    {
      assert Covered(w.segments, a) <==> Passed(runs, w, a);
    }
  }

  /** The segment one answered read adds to the history, if any. */
  function NewSegment(lim: Limits, runs: seq<MemoryRun>, w: Walk, result: ReadResult): Option<Segment>
    requires lim.Valid() && Active(runs, w) && Accepts(lim, runs, w, result)
  {
    if result.copied != 0 then Some(Got(Here(runs, w), result.data))
    else if w.phase.Isolating? then Some(Lost(Here(runs, w), NextLength(lim, runs, w), result.copyStatus))
    else None
  }

  lemma {:induction false} StepShape(lim: Limits, runs: seq<MemoryRun>, w: Walk, result: ReadResult)
    requires lim.Valid() && Active(runs, w) && Accepts(lim, runs, w, result)
    ensures var w' := Step(lim, runs, w, result);
            match NewSegment(lim, runs, w, result)
            case None => w'.run == w.run && w'.offset == w.offset && w'.segments == w.segments
            case Some(s) =>
              && s.Length() > 0 && w.offset + s.Length() <= runs[w.run].length
              && w'.segments == w.segments + [s]
              && if w'.run == w.run then w'.offset == w.offset + s.Length()
                 else w' == Walk(w.run + 1, 0, Bulk, w'.segments) && w.offset + s.Length() == runs[w.run].length
  {
  }

  lemma {:induction false} StepTiles(lim: Limits, runs: seq<MemoryRun>, w: Walk, result: ReadResult)
    requires lim.Valid() && SortedDisjoint(runs) && Active(runs, w) && Accepts(lim, runs, w, result)
    requires Tiling(runs, w)
    ensures Tiling(runs, Step(lim, runs, w, result))
  {
    var w' := Step(lim, runs, w, result);
    StepShape(lim, runs, w, result);
    match NewSegment(lim, runs, w, result)
    case None => TilingIgnoresPhase(runs, w, w');
    case Some(s) =>
      var mid := Walk(w.run, w.offset + s.Length(), Bulk, w.segments + [s]);
      TilingGrows(runs, w, s, mid);
      if w'.run == w.run {
        TilingIgnoresPhase(runs, mid, w');
      } else {
        TilingSettles(runs, mid, w');
      }
  }

  lemma {:induction false} AlwaysTiling(lim: Limits, runs: seq<MemoryRun>, probes: seq<Probe>)
    requires lim.Valid() && SortedDisjoint(runs) && Conforming(lim, runs, probes)
    ensures Tiling(runs, Replay(lim, runs, probes))
  {
    if |probes| == 0 {
      assert forall a: int :: !Covered(START.segments, a) && !InRuns(runs[..0], a);
    } else {
      var init := probes[..|probes| - 1];
      AlwaysTiling(lim, runs, init);
      StepTiles(lim, runs, Replay(lim, runs, init), probes[|probes| - 1].result);
    }
  }

  /** Every byte of the runs is in some segment, and nothing else is. */
  ghost predicate CoversExactly(runs: seq<MemoryRun>, segs: seq<Segment>) {
    forall a: int :: Covered(segs, a) <==> InRuns(runs, a)
  }

  lemma {:induction false} TilingPastAllRuns(runs: seq<MemoryRun>, w: Walk)
    requires Tiling(runs, w) && Finished(runs, w)
    ensures CoversExactly(runs, w.segments)
  {
    assert runs[..w.run] == runs;
    forall a: int
      ensures Covered(w.segments, a) <==> InRuns(runs, a)
    {
      assert Covered(w.segments, a) <==> Passed(runs, w, a);
    }
  }

  lemma {:induction false} ProcessedAll(runs: seq<MemoryRun>, w: Walk)
    requires Finished(runs, w) && w.offset == 0
    ensures Processed(runs, w) == SumLengths(runs)
  {
    assert runs[..w.run] == runs;
  }

  /** Conservation at the end, for any run table: obtained plus lost is the sum of the run lengths. */
  lemma {:induction false} FinishedConserves(lim: Limits, runs: seq<MemoryRun>, probes: seq<Probe>)
    requires lim.Valid() && Conforming(lim, runs, probes) && Finished(runs, Replay(lim, runs, probes))
    ensures Accounted(Replay(lim, runs, probes).segments) == SumLengths(runs)
  {
    Conservation(lim, runs, probes);
    InactiveIsBetweenRuns(lim, runs, probes);
    ProcessedAll(runs, Replay(lim, runs, probes));
  }

  /**
   Partition.  Over sorted disjoint runs a finished walk has put every byte of the runs into exactly
   one segment and nothing else into any.
   */
  lemma {:induction false} FinishedPartitions(lim: Limits, runs: seq<MemoryRun>, probes: seq<Probe>)
    requires lim.Valid() && SortedDisjoint(runs)
    requires Conforming(lim, runs, probes) && Finished(runs, Replay(lim, runs, probes))
    ensures Ascending(Replay(lim, runs, probes).segments)
    ensures CoversExactly(runs, Replay(lim, runs, probes).segments)
  {
    AlwaysTiling(lim, runs, probes);
    TilingPastAllRuns(runs, Replay(lim, runs, probes));
  }

  /** Every segment lies inside the 64-bit address domain. */
  lemma {:induction false} SegmentsFit(lim: Limits, runs: seq<MemoryRun>, probes: seq<Probe>)
    requires lim.Valid() && Conforming(lim, runs, probes)
    ensures forall i :: 0 <= i < |Replay(lim, runs, probes).segments| ==>
              Replay(lim, runs, probes).segments[i].End() <= U64_MAX
  {
    if |probes| > 0 {
      SegmentsFit(lim, runs, probes[..|probes| - 1]);
    }
  }

  // ---- justification ----

  /** This read is why that segment is in the history. */
  ghost predicate Justifies(lim: Limits, p: Probe, s: Segment)
    requires lim.Valid()
  {
    && p.result.physicalAddress == s.start
    && match s
       case Got(_, data) => p.result.copied > 0 && p.result.data == data
       case Lost(start, length, status) =>
         && p.result.copied == 0 && p.result.copyStatus == status && p.request.length == length
         && start % lim.page + length <= lim.page
  }

  ghost predicate Justified(lim: Limits, probes: seq<Probe>, s: Segment)
    requires lim.Valid()
  {
    exists k :: 0 <= k < |probes| && Justifies(lim, probes[k], s)
  }

  /** Obtained bytes are a read's bytes; a lost stretch is a failed read inside one page, with its status. */
  lemma {:induction false} EverySegmentJustified(lim: Limits, runs: seq<MemoryRun>, probes: seq<Probe>)
    requires lim.Valid() && Conforming(lim, runs, probes)
    ensures forall i :: 0 <= i < |Replay(lim, runs, probes).segments| ==>
              Justified(lim, probes, Replay(lim, runs, probes).segments[i])
  {
    if |probes| > 0 {
      var n := |probes| - 1;
      var w := Replay(lim, runs, probes[..n]);
      var w' := Replay(lim, runs, probes);
      EverySegmentJustified(lim, runs, probes[..n]);
      forall i | 0 <= i < |w'.segments|
        ensures Justified(lim, probes, w'.segments[i])
      {
        if i < |w.segments| {
          assert Justified(lim, probes[..n], w.segments[i]);
          var k :| 0 <= k < n && Justifies(lim, probes[..n][k], w.segments[i]);
          assert Justifies(lim, probes[k], w'.segments[i]);
        } else {
          assert Justifies(lim, probes[n], w'.segments[i]);
        }
      }
    }
  }

  /** A read inside one run, named as the driver names it. */
  ghost predicate InBounds(lim: Limits, runs: seq<MemoryRun>, p: Probe) {
    exists i :: 0 <= i < |runs| && InRun(lim, runs[i], p)
  }

  ghost predicate InRun(lim: Limits, run: MemoryRun, p: Probe) {
    && p.request.runIndex == run.driverIndex
    && 0 < p.request.length <= lim.transfer
    && p.request.offset + p.request.length <= run.length
    && p.result.physicalAddress == run.base + p.request.offset
  }

  lemma {:induction false} WindowsFitTransfer(lim: Limits, runs: seq<MemoryRun>, probes: seq<Probe>)
    requires lim.Valid() && Conforming(lim, runs, probes)
    ensures var w := Replay(lim, runs, probes);
            w.phase.Isolating? ==> w.phase.windowEnd - w.offset <= lim.transfer
  {
    if |probes| > 0 {
      WindowsFitTransfer(lim, runs, probes[..|probes| - 1]);
    }
  }

  lemma {:induction false} EveryReadInBounds(lim: Limits, runs: seq<MemoryRun>, probes: seq<Probe>)
    requires lim.Valid() && Conforming(lim, runs, probes)
    ensures forall k :: 0 <= k < |probes| ==> InBounds(lim, runs, probes[k])
  {
    if |probes| > 0 {
      var n := |probes| - 1;
      EveryReadInBounds(lim, runs, probes[..n]);
      WindowsFitTransfer(lim, runs, probes[..n]);
      assert forall k :: 0 <= k < n ==> probes[k] == probes[..n][k];
      assert InRun(lim, runs[Replay(lim, runs, probes[..n]).run], probes[n]);
    }
  }
}
