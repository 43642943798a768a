/**
 Memory that holds still while it is acquired.  Bulk reading with page isolation then gives the
 same evidence as the plain scan that reads one page at a time.
 */
module StaticMemory {
  import opened Words
  import opened Runs
  import opened Segments
  import opened Engine

  /** `faults` says which pages fail to read and with what status; `contents` is what the others hold. */
  datatype Memory = Memory(contents: nat -> byte, faults: nat -> Option<i32>)

  function FaultAt(lim: Limits, mem: Memory, a: nat): Option<i32>
    requires lim.Valid()
  {
    mem.faults(a / lim.page)
  }

  /** A read copies the longest prefix free of failing pages and reports the first failing page. */
  ghost predicate Served(lim: Limits, mem: Memory, p: Probe)
    requires lim.Valid()
  {
    var address := p.result.physicalAddress;
    && p.result.copied <= p.request.length
    && |p.result.data| == p.result.copied
    && (forall a: int :: address <= a < address + p.result.copied ==>
          FaultAt(lim, mem, a) == None && p.result.data[a - address] == mem.contents(a))
    && (p.result.copied < p.request.length ==>
          FaultAt(lim, mem, address + p.result.copied) == Some(p.result.copyStatus))
  }

  /** The segment tells the truth about memory. */
  ghost predicate Faithful(lim: Limits, mem: Memory, s: Segment)
    requires lim.Valid()
  {
    match s
    case Got(start, data) =>
      forall a: int :: s.Covers(a) ==> FaultAt(lim, mem, a) == None && data[a - start] == mem.contents(a)
    case Lost(_, _, status) =>
      forall a: int :: s.Covers(a) ==> FaultAt(lim, mem, a) == Some(status)
  }

  ghost predicate AllFaithful(lim: Limits, mem: Memory, segs: seq<Segment>)
    requires lim.Valid()
  {
    forall i :: 0 <= i < |segs| ==> Faithful(lim, mem, segs[i])
  }

  lemma {:induction false} SamePage(page: nat, start: nat, i: nat)
    requires page > 0 && start % page + i < page
    ensures (start + i) / page == start / page
  {
    var k := start / page;
    var r := start % page + i;
    assert start + i == page * k + r;
    var k' := (start + i) / page;
    assert page * (k - k') == (start + i) % page - r;
    if k > k' {
      MultipleAtLeast(page, k - k');
    }
    if k < k' {
      assert page * (k' - k) == r - (start + i) % page;
      MultipleAtLeast(page, k' - k);
    }
  }

  /** Within one page everything fails like its first byte. */
  lemma {:induction false} PageFailsTogether(lim: Limits, mem: Memory, start: nat, length: nat)
    requires lim.Valid() && start % lim.page + length <= lim.page
    ensures forall a: int :: start <= a < start + length ==> FaultAt(lim, mem, a) == FaultAt(lim, mem, start)
  {
    forall a: int | start <= a < start + length
      ensures FaultAt(lim, mem, a) == FaultAt(lim, mem, start)
    {
      SamePage(lim.page, start, a - start);
    }
  }

  lemma {:induction false} ServedMakesFaithful(lim: Limits, mem: Memory, p: Probe, s: Segment)
    requires lim.Valid() && Served(lim, mem, p) && Justifies(lim, p, s)
    ensures s.Length() > 0 ==> Faithful(lim, mem, s)
  {
    if s.Lost? {
      PageFailsTogether(lim, mem, s.start, s.length);
    }
  }

  // ---- the naive scan ----

  /** One page, or the part of it that lies in the run, looked up directly. */
  function PagePiece(lim: Limits, mem: Memory, runs: seq<MemoryRun>, w: Walk): (s: Segment)
    requires lim.Valid() && Active(runs, w)
    ensures 0 < s.Length() <= runs[w.run].length - w.offset && s.start == Here(runs, w)
    ensures s.start % lim.page + s.Length() <= lim.page
  {
    var address := Here(runs, w);
    var length := Min(lim.page - address % lim.page, runs[w.run].length - w.offset);
    match FaultAt(lim, mem, address)
    case None => Got(address, seq(length, i requires 0 <= i => mem.contents(address + i)))
    case Some(status) => Lost(address, length, status)
  }

  function PageStep(lim: Limits, mem: Memory, runs: seq<MemoryRun>, w: Walk): Walk
    requires lim.Valid() && Active(runs, w)
  {
    var s := PagePiece(lim, mem, runs, w);
    Settle(runs, w.run, w.offset + s.Length(), w.segments + [s])
  }

  /** Reads page after page until the runs are exhausted. */
  function NaiveScan(lim: Limits, mem: Memory, runs: seq<MemoryRun>, w: Walk): Walk
    requires lim.Valid()
    decreases |runs| - w.run, if w.run < |runs| then runs[w.run].length - w.offset else 0
  {
    if Active(runs, w) then NaiveScan(lim, mem, runs, PageStep(lim, mem, runs, w)) else w
  }

  lemma {:induction false} PagePieceFaithful(lim: Limits, mem: Memory, runs: seq<MemoryRun>, w: Walk)
    requires lim.Valid() && Active(runs, w)
    ensures Faithful(lim, mem, PagePiece(lim, mem, runs, w))
  {
    var s := PagePiece(lim, mem, runs, w);
    PageFailsTogether(lim, mem, s.start, s.Length());
  }

  lemma {:induction false} PageStepKeeps(lim: Limits, mem: Memory, runs: seq<MemoryRun>, w: Walk)
    requires lim.Valid() && SortedDisjoint(runs) && Active(runs, w)
    requires Tiling(runs, w) && AllFaithful(lim, mem, w.segments)
    ensures var w' := PageStep(lim, mem, runs, w);
            Tiling(runs, w') && AllFaithful(lim, mem, w'.segments)
  {
    var s := PagePiece(lim, mem, runs, w);
    var w' := PageStep(lim, mem, runs, w);
    var mid := Walk(w.run, w.offset + s.Length(), Bulk, w.segments + [s]);
    PagePieceFaithful(lim, mem, runs, w);
    TilingGrows(runs, w, s, mid);
    if w'.run != w.run {
      TilingSettles(runs, mid, w');
    }
  }

  lemma {:induction false} PageStepAccounts(lim: Limits, mem: Memory, runs: seq<MemoryRun>, w: Walk)
    requires lim.Valid() && Active(runs, w)
    requires Accounted(w.segments) == Processed(runs, w)
    ensures var w' := PageStep(lim, mem, runs, w); w'.run <= |runs| && Accounted(w'.segments) == Processed(runs, w')
  {
    var w' := PageStep(lim, mem, runs, w);
    assert runs[..w.run + 1][..w.run] == runs[..w.run];
    assert w'.segments[..|w'.segments| - 1] == w.segments;
  }

  // ---- histories that are faithful and cover the runs agree ----

  /** A faithful history of exactly these runs. */
  ghost predicate Record(lim: Limits, mem: Memory, runs: seq<MemoryRun>, segs: seq<Segment>)
    requires lim.Valid()
  {
    && Ascending(segs)
    && AllFaithful(lim, mem, segs)
    && CoversExactly(runs, segs)
    && Accounted(segs) == SumLengths(runs)
  }

  lemma {:induction false} RecordLost(lim: Limits, mem: Memory, runs: seq<MemoryRun>, segs: seq<Segment>, a: int, st: i32)
    requires lim.Valid() && Record(lim, mem, runs, segs)
    ensures LostAt(segs, a, st) <==> a >= 0 && InRuns(runs, a) && FaultAt(lim, mem, a) == Some(st)
  {
    assert Covered(segs, a) <==> InRuns(runs, a);
    if LostAt(segs, a, st) {
      var i :| 0 <= i < |segs| && segs[i].Lost? && segs[i].Covers(a) && segs[i].status == st;
      assert Faithful(lim, mem, segs[i]);
    }
    if a >= 0 && InRuns(runs, a) && FaultAt(lim, mem, a) == Some(st) {
      var i :| 0 <= i < |segs| && segs[i].Covers(a);
      assert Faithful(lim, mem, segs[i]);
    }
  }

  lemma {:induction false} RecordGot(lim: Limits, mem: Memory, runs: seq<MemoryRun>, segs: seq<Segment>, a: int, b: byte)
    requires lim.Valid() && Record(lim, mem, runs, segs)
    ensures GotAt(segs, a, b) <==>
            a >= 0 && InRuns(runs, a) && FaultAt(lim, mem, a) == None && mem.contents(a) == b
  {
    assert Covered(segs, a) <==> InRuns(runs, a);
    if GotAt(segs, a, b) {
      var i :| 0 <= i < |segs| && segs[i].Got? && segs[i].Covers(a) && segs[i].data[a - segs[i].start] == b;
      assert Faithful(lim, mem, segs[i]);
    }
    if a >= 0 && InRuns(runs, a) && FaultAt(lim, mem, a) == None && mem.contents(a) == b {
      var i :| 0 <= i < |segs| && segs[i].Covers(a);
      assert Faithful(lim, mem, segs[i]);
    }
  }

  lemma {:induction false} RecordsSameByte(lim: Limits, mem: Memory, runs: seq<MemoryRun>,
                                           p: seq<Segment>, q: seq<Segment>, a: int)
    requires lim.Valid() && Record(lim, mem, runs, p) && Record(lim, mem, runs, q)
    requires ByteAt(p, a) != 0
    ensures ByteAt(q, a) == ByteAt(p, a)
  {
    NonZeroWasGot(p, a);
    RecordGot(lim, mem, runs, p, a, ByteAt(p, a));
    RecordGot(lim, mem, runs, q, a, ByteAt(p, a));
    GotReachesImage(q, a, ByteAt(p, a));
  }

  lemma {:induction false} RecordsAgree(lim: Limits, mem: Memory, runs: seq<MemoryRun>,
                                        p: seq<Segment>, q: seq<Segment>, size: nat)
    requires lim.Valid() && Record(lim, mem, runs, p) && Record(lim, mem, runs, q)
    ensures ImageOf(p, size) == ImageOf(q, size)
    ensures Coalesce(p) == Coalesce(q)
    ensures GotBytes(p) == GotBytes(q) && LostBytes(p) == LostBytes(q)
  {
    forall a | 0 <= a < size
      ensures ByteAt(p, a) == ByteAt(q, a)
    {
      if ByteAt(p, a) != 0 {
        RecordsSameByte(lim, mem, runs, p, q, a);
      } else if ByteAt(q, a) != 0 {
        RecordsSameByte(lim, mem, runs, q, p, a);
      }
    }
    CoalesceCanonical(p);
    CoalesceCanonical(q);
    forall a: int, st: i32
      ensures SpanAt(Coalesce(p), a, st) <==> SpanAt(Coalesce(q), a, st)
    {
      CoalesceCovers(p, a, st);
      CoalesceCovers(q, a, st);
      RecordLost(lim, mem, runs, p, a, st);
      RecordLost(lim, mem, runs, q, a, st);
    }
    CanonicalUnique(Coalesce(p), Coalesce(q));
    CoalesceBytes(p);
    CoalesceBytes(q);
  }

  lemma {:induction false} JustifiedIsFaithful(lim: Limits, mem: Memory, probes: seq<Probe>, segs: seq<Segment>)
    requires lim.Valid() && Ascending(segs)
    requires forall i :: 0 <= i < |segs| ==> Justified(lim, probes, segs[i])
    requires forall k :: 0 <= k < |probes| ==> Served(lim, mem, probes[k])
    ensures AllFaithful(lim, mem, segs)
  {
    forall i | 0 <= i < |segs|
      ensures Faithful(lim, mem, segs[i])
    {
      var k :| 0 <= k < |probes| && Justifies(lim, probes[k], segs[i]);
      ServedMakesFaithful(lim, mem, probes[k], segs[i]);
    }
  }

  lemma {:induction false} EngineRecords(lim: Limits, mem: Memory, runs: seq<MemoryRun>, probes: seq<Probe>)
    requires lim.Valid() && SortedDisjoint(runs)
    requires Conforming(lim, runs, probes) && Finished(runs, Replay(lim, runs, probes))
    requires forall k :: 0 <= k < |probes| ==> Served(lim, mem, probes[k])
    ensures Record(lim, mem, runs, Replay(lim, runs, probes).segments)
  {
    FinishedPartitions(lim, runs, probes);
    FinishedConserves(lim, runs, probes);
    EverySegmentJustified(lim, runs, probes);
    JustifiedIsFaithful(lim, mem, probes, Replay(lim, runs, probes).segments);
  }

  lemma {:induction false} TiledIsRecord(lim: Limits, mem: Memory, runs: seq<MemoryRun>, end: Walk)
    requires lim.Valid() && Finished(runs, end) && Tiling(runs, end) && AllFaithful(lim, mem, end.segments)
    requires Accounted(end.segments) == SumLengths(runs)
    ensures Record(lim, mem, runs, end.segments)
  {
    TilingPastAllRuns(runs, end);
  }

  /** What the naive scan keeps. */
  ghost predicate Recording(lim: Limits, mem: Memory, runs: seq<MemoryRun>, w: Walk)
    requires lim.Valid()
  {
    && Located(runs, w) && w.phase.Bulk?
    && Tiling(runs, w)
    && AllFaithful(lim, mem, w.segments)
    && Accounted(w.segments) == Processed(runs, w)
  }

  lemma {:induction false} StartKeeps(lim: Limits, mem: Memory, runs: seq<MemoryRun>)
    requires lim.Valid() && Sane(runs)
    ensures Recording(lim, mem, runs, START)
  {
    assert forall a: int :: !Covered(START.segments, a) && !InRuns(runs[..0], a);
  }

  /** The naive scan makes a faithful history of exactly the runs. */
  lemma {:induction false} NaiveScanRecords(lim: Limits, mem: Memory, runs: seq<MemoryRun>, w: Walk)
    requires lim.Valid() && Sane(runs) && SortedDisjoint(runs) && Recording(lim, mem, runs, w)
    ensures Record(lim, mem, runs, NaiveScan(lim, mem, runs, w).segments)
    decreases |runs| - w.run, if w.run < |runs| then runs[w.run].length - w.offset else 0
  {
    if Active(runs, w) {
      PageStepKeeps(lim, mem, runs, w);
      PageStepAccounts(lim, mem, runs, w);
      PageStepLocated(lim, mem, runs, w);
      NaiveScanRecords(lim, mem, runs, PageStep(lim, mem, runs, w));
    } else {
      ProcessedAll(runs, w);
      TiledIsRecord(lim, mem, runs, w);
    }
  }

  lemma {:induction false} PageStepLocated(lim: Limits, mem: Memory, runs: seq<MemoryRun>, w: Walk)
    requires lim.Valid() && Sane(runs) && Active(runs, w)
    ensures Located(runs, PageStep(lim, mem, runs, w)) && PageStep(lim, mem, runs, w).phase.Bulk?
  {
  }

  lemma {:induction false} NaiveRecords(lim: Limits, mem: Memory, runs: seq<MemoryRun>)
    requires lim.Valid() && Sane(runs) && SortedDisjoint(runs)
    ensures Record(lim, mem, runs, NaiveScan(lim, mem, runs, START).segments)
  {
    StartKeeps(lim, mem, runs);
    NaiveScanRecords(lim, mem, runs, START);
  }

  /**
   The fast path refines the slow path: same image, same span list, same totals, for every run
   alignment, transfer size and pattern of failing pages.
   */
  lemma {:induction false} FastEqualsNaive(lim: Limits, mem: Memory, runs: seq<MemoryRun>, probes: seq<Probe>, size: nat)
    requires lim.Valid() && Sane(runs) && SortedDisjoint(runs)
    requires Conforming(lim, runs, probes) && Finished(runs, Replay(lim, runs, probes))
    requires forall k :: 0 <= k < |probes| ==> Served(lim, mem, probes[k])
    ensures var fast := Replay(lim, runs, probes).segments;
            var slow := NaiveScan(lim, mem, runs, START).segments;
            && ImageOf(fast, size) == ImageOf(slow, size)
            && Coalesce(fast) == Coalesce(slow)
            && GotBytes(fast) == GotBytes(slow) && LostBytes(fast) == LostBytes(slow)
  {
    EngineRecords(lim, mem, runs, probes);
    NaiveRecords(lim, mem, runs);
    RecordsAgree(lim, mem, runs, Replay(lim, runs, probes).segments,
                 NaiveScan(lim, mem, runs, START).segments, size);
  }

  lemma {:induction false} RecordSpans(lim: Limits, mem: Memory, runs: seq<MemoryRun>, segs: seq<Segment>,
                                       a: nat, status: i32)
    requires lim.Valid() && Record(lim, mem, runs, segs)
    ensures SpanAt(Coalesce(segs), a, status) <==> InRuns(runs, a) && FaultAt(lim, mem, a) == Some(status)
  {
    CoalesceCovers(segs, a, status);
    RecordLost(lim, mem, runs, segs, a, status);
  }

  /** The recorded unreadable bytes are exactly the failing pages' bytes inside the runs. */
  lemma {:induction false} UnreadableIsFaultyPages(lim: Limits, mem: Memory, runs: seq<MemoryRun>,
                                                   probes: seq<Probe>, a: nat, status: i32)
    requires lim.Valid() && SortedDisjoint(runs)
    requires Conforming(lim, runs, probes) && Finished(runs, Replay(lim, runs, probes))
    requires forall k :: 0 <= k < |probes| ==> Served(lim, mem, probes[k])
    ensures SpanAt(Coalesce(Replay(lim, runs, probes).segments), a, status)
       <==> InRuns(runs, a) && FaultAt(lim, mem, a) == Some(status)
  {
    EngineRecords(lim, mem, runs, probes);
    RecordSpans(lim, mem, runs, Replay(lim, runs, probes).segments, a, status);
  }
}
