/**
 The acquisition engine itself: nested loops over the runs that keep a sparse image, a streaming
 hash, the byte counters and the unreadable spans in lockstep with the read policy.
 */
module AcquireEngine {
  import opened Words
  import opened Runs
  import opened Segments
  import opened Engine
  import opened Files
  import opened Hashing
  import opened RawWriters
  import opened Devices

  datatype AcquisitionSummary = AcquisitionSummary(
    completed: bool, topologyChanged: bool,
    logicalSize: u64, physicalBytes: u64, acquiredBytes: u64, unreadableBytes: u64,
    sha256: string, ranges: seq<MemoryRun>, unreadable: seq<Span>)

  const EMPTY_SUMMARY := AcquisitionSummary(false, false, 0, 0, 0, 0, "", [], [])

  // ---- image and hash under one more segment ----

  /** Where the obtained bytes end. */
  function GotEnd(segs: seq<Segment>): nat {
    if |segs| == 0 then 0
    else
      var last := segs[|segs| - 1];
      if last.Got? then Max(GotEnd(segs[..|segs| - 1]), last.End()) else GotEnd(segs[..|segs| - 1])
  }

  lemma {:induction false} ZeroFromGotEnd(segs: seq<Segment>, a: int)
    requires a >= GotEnd(segs)
    ensures ByteAt(segs, a) == 0
  {
    if |segs| > 0 {
      ZeroFromGotEnd(segs[..|segs| - 1], a);
    }
  }

  lemma {:induction false} ByteAtOneMore(segs: seq<Segment>, s: Segment, a: int)
    ensures ByteAt(segs + [s], a) == if s.Got? && s.Covers(a) then s.data[a - s.start] else ByteAt(segs, a)
  {
    assert (segs + [s])[..|segs|] == segs;
  }

  lemma {:induction false} GotWritesImage(segs: seq<Segment>, address: nat, data: seq<byte>, size: nat)
    requires address + |data| <= size
    ensures Splice(ImageOf(segs, size), address, data) == ImageOf(segs + [Got(address, data)], size)
  {
    forall a | 0 <= a < size
      ensures Splice(ImageOf(segs, size), address, data)[a] == ByteAt(segs + [Got(address, data)], a)
    {
      ByteAtOneMore(segs, Got(address, data), a);
    }
  }

  lemma {:induction false} GotExtendsHash(segs: seq<Segment>, position: nat, address: nat, data: seq<byte>)
    requires GotEnd(segs) == position <= address
    ensures ImageOf(segs, position) + Zeros(address - position) + data
         == ImageOf(segs + [Got(address, data)], address + |data|)
  {
    var more := segs + [Got(address, data)];
    forall a | 0 <= a < address + |data|
      ensures (ImageOf(segs, position) + Zeros(address - position) + data)[a] == ByteAt(more, a)
    {
      ByteAtOneMore(segs, Got(address, data), a);
      if position <= a < address {
        ZeroFromGotEnd(segs, a);
      }
    }
  }

  lemma {:induction false} LostLeavesImage(segs: seq<Segment>, s: Segment, size: nat)
    requires s.Lost?
    ensures ImageOf(segs + [s], size) == ImageOf(segs, size)
  {
    forall a | 0 <= a < size
      ensures ByteAt(segs + [s], a) == ByteAt(segs, a)
    {
      ByteAtOneMore(segs, s, a);
    }
  }

  lemma {:induction false} PaddingExtendsHash(segs: seq<Segment>, position: nat, size: nat)
    requires GotEnd(segs) == position <= size
    ensures ImageOf(segs, position) + Zeros(size - position) == ImageOf(segs, size)
  {
    forall a | position <= a < size
      ensures ByteAt(segs, a) == 0
    {
      ZeroFromGotEnd(segs, a);
    }
  }

  lemma {:induction false} TotalsOneMore(segs: seq<Segment>, s: Segment)
    ensures GotBytes(segs + [s]) == GotBytes(segs) + (if s.Got? then s.Length() else 0)
    ensures LostBytes(segs + [s]) == LostBytes(segs) + (if s.Lost? then s.Length() else 0)
    ensures GotEnd(segs + [s]) == if s.Got? then Max(GotEnd(segs), s.End()) else GotEnd(segs)
    ensures Coalesce(segs + [s]) ==
            if s.Lost? then AddSpan(Coalesce(segs), s.start, s.length, s.status) else Coalesce(segs)
  {
    assert (segs + [s])[..|segs|] == segs;
  }

  // ---- what a device may do to end an acquisition ----

  /** The read the policy asked for failed, or was answered with something that is not accepted. */
  ghost predicate RefusedRead(lim: Limits, runs: seq<MemoryRun>, w: Walk, call: Call)
    requires lim.Valid()
  {
    && Active(runs, w)
    && call.ReadCall?
    && call.request == NextRequest(lim, runs, w)
    && (call.result.None? || !Accepts(lim, runs, w, call.result.value))
  }

  /** The one call that may come after the accepted reads: a read not usable, or the end when all is read. */
  ghost predicate Concluding(lim: Limits, runs: seq<MemoryRun>, w: Walk, call: Call)
    requires lim.Valid()
  {
    RefusedRead(lim, runs, w, call) || (call.EndCall? && Finished(runs, w))
  }

  /** Nothing was asked but the reads of the policy, and after them at most one call that concludes them. */
  ghost predicate KeptToPolicy(lim: Limits, runs: seq<MemoryRun>, calls: seq<Call>, probes: seq<Probe>)
    requires lim.Valid()
  {
    && Conforming(lim, runs, probes)
    && |probes| <= |calls| <= |probes| + 1
    && calls[..|probes|] == ReadCalls(probes)
    && (|calls| > |probes| ==> Concluding(lim, runs, Replay(lim, runs, probes), calls[|probes|]))
  }

  /** The concluding call was a refusal. */
  predicate Refusing(calls: seq<Call>, n: nat) {
    |calls| > n && (calls[n].ReadCall? || calls[n] == EndCall(None))
  }

  lemma {:induction false} PolicyShows(lim: Limits, runs: seq<MemoryRun>, base: seq<Call>, probes: seq<Probe>,
                                       tail: seq<Call>)
    requires lim.Valid() && Conforming(lim, runs, probes) && |tail| <= 1
    requires |tail| == 1 ==> Concluding(lim, runs, Replay(lim, runs, probes), tail[0])
    ensures var log := base + ReadCalls(probes) + tail;
            && KeptToPolicy(lim, runs, log[|base|..], probes)
            && log[|base|..] == ReadCalls(probes) + tail
  {
    var log := base + ReadCalls(probes) + tail;
    assert log[|base|..] == ReadCalls(probes) + tail;
    assert (ReadCalls(probes) + tail)[..|probes|] == ReadCalls(probes);
  }

  // ---- where one read leads, in the terms of the loops ----

  /**
   From `w` an accepted read that copied so many bytes leads to `w'`: a full bulk read goes on in bulk, a
   short one opens a window; a full page closes the window, anything else moves on in it to its end.
   */
  ghost predicate Led(lim: Limits, runs: seq<MemoryRun>, w: Walk, copied: u32, w': Walk)
    requires lim.Valid()
  {
    && Active(runs, w)
    && var requested := NextLength(lim, runs, w);
       && copied <= requested
       && match w.phase
          case Bulk =>
            if copied == requested then w' == Settle(runs, w.run, w.offset + copied, w'.segments)
            else
              var windowEnd := Min(runs[w.run].length, w.offset + copied + (requested - copied));
              Active(runs, w') && w' == Walk(w.run, w.offset + copied, Isolating(windowEnd), w'.segments)
          case Isolating(windowEnd) =>
            var offset := w.offset + (if copied != 0 then copied else requested);
            && w.offset < offset <= windowEnd
            && if copied == requested || offset == windowEnd
               then w' == Settle(runs, w.run, offset, w'.segments)
               else Active(runs, w') && w' == Walk(w.run, offset, w.phase, w'.segments)
  }

  /** The step of the machine, told in the terms of the loops. */
  lemma {:induction false} StepLeads(lim: Limits, runs: seq<MemoryRun>, w: Walk, result: ReadResult)
    requires lim.Valid() && Active(runs, w) && Accepts(lim, runs, w, result)
    ensures Led(lim, runs, w, result.copied, Step(lim, runs, w, result))
  {
  }

  /** Where a window ends that a short bulk read has opened. */
  function WindowEnd(run: MemoryRun, offset: nat, requested: nat, copied: nat): int {
    Min(run.length, offset + copied + (requested - copied))
  }

  lemma {:induction false} BulkLeads(lim: Limits, runs: seq<MemoryRun>, w: Walk, copied: u32, w': Walk)
    requires lim.Valid() && w.phase.Bulk? && Led(lim, runs, w, copied, w')
    ensures var requested := NextLength(lim, runs, w);
            && copied <= requested && w.offset + copied <= runs[w.run].length
            && (copied == requested ==> w' == Settle(runs, w.run, w.offset + copied, w'.segments))
            && (copied != requested ==>
                  var end := WindowEnd(runs[w.run], w.offset, requested, copied);
                  && w.offset + copied < end <= runs[w.run].length
                  && Active(runs, w') && w' == Walk(w.run, w.offset + copied, Isolating(end), w'.segments))
  {
  }

  // ---- what can never happen over a good run table ----

  /** The run table every check of the engine lets through. */
  ghost predicate Good(runs: seq<MemoryRun>, size: nat) {
    Sane(runs) && SortedDisjoint(runs) && forall i :: 0 <= i < |runs| ==> runs[i].End() <= size
  }

  /** The next run is empty or reaches past the address domain. */
  ghost predicate StandsInInsaneRun(runs: seq<MemoryRun>, w: Walk) {
    w.run < |runs| && !(runs[w.run].length > 0 && runs[w.run].End() <= U64_MAX)
  }

  ghost predicate SaneUpTo(runs: seq<MemoryRun>, n: nat) {
    n == 0 || (n <= |runs| && runs[n - 1].length > 0 && runs[n - 1].End() <= U64_MAX && SaneUpTo(runs, n - 1))
  }

  lemma {:induction false} SaneWhenAllAre(runs: seq<MemoryRun>)
    requires SaneUpTo(runs, |runs|)
    ensures Sane(runs)
  {
    forall i | 0 <= i < |runs|
      ensures runs[i].length > 0 && runs[i].End() <= U64_MAX
    {
      SaneBelow(runs, |runs|, i);
    }
  }

  lemma {:induction false} SaneBelow(runs: seq<MemoryRun>, n: nat, i: nat)
    requires SaneUpTo(runs, n) && i < n <= |runs|
    ensures runs[i].length > 0 && runs[i].End() <= U64_MAX
  {
    if i < n - 1 {
      SaneBelow(runs, n - 1, i);
    }
  }

  /** Bytes obtained behind other bytes already obtained, beyond the image, or too many to count. */
  ghost predicate Contradicted(segs: seq<Segment>, size: nat) {
    || (|segs| > 0 && segs[|segs| - 1].Got? && segs[|segs| - 1].start < GotEnd(segs[..|segs| - 1]))
    || GotEnd(segs) > size
    || Accounted(segs) > U64_MAX
  }

  lemma {:induction false} ContradictedByGot(segs: seq<Segment>, address: nat, data: seq<byte>, size: nat)
    ensures address < GotEnd(segs) || address + |data| > size || Accounted(segs) + |data| > U64_MAX
            ==> Contradicted(segs + [Got(address, data)], size)
  {
    TotalsOneMore(segs, Got(address, data));
    assert (segs + [Got(address, data)])[..|segs|] == segs;
  }

  lemma {:induction false} GotEndIsAnEnd(segs: seq<Segment>)
    requires Ascending(segs)
    ensures GotEnd(segs) == 0 || exists i :: 0 <= i < |segs| && segs[i].End() == GotEnd(segs)
  {
    if |segs| > 0 {
      var init := segs[..|segs| - 1];
      GotEndIsAnEnd(init);
      if GotEnd(segs) == GotEnd(init) && GotEnd(init) != 0 {
        var i :| 0 <= i < |init| && init[i].End() == GotEnd(init);
        assert segs[i].End() == GotEnd(segs);
      }
    }
  }

  lemma {:induction false} AscendingNeverBackwards(segs: seq<Segment>)
    requires Ascending(segs) && |segs| > 0
    ensures GotEnd(segs[..|segs| - 1]) <= segs[|segs| - 1].start
  {
    var init := segs[..|segs| - 1];
    GotEndIsAnEnd(init);
    if GotEnd(init) != 0 {
      var i :| 0 <= i < |init| && init[i].End() == GotEnd(init);
      assert segs[i].End() <= segs[|segs| - 1].start;
    }
  }

  lemma {:induction false} ProcessedWithinWords(runs: seq<MemoryRun>, w: Walk)
    requires SortedDisjoint(runs) && Sane(runs) && Located(runs, w)
    ensures Processed(runs, w) <= U64_MAX
  {
    SumWithinLastEnd(runs);
    if w.run < |runs| {
      ActiveHasBytesLeft(runs, w);
    } else {
      ProcessedAll(runs, w);
    }
  }

  /** No device can make the engine contradict itself over a good run table. */
  lemma {:induction false} GoodNeverContradicted(lim: Limits, runs: seq<MemoryRun>, probes: seq<Probe>, size: nat)
    requires lim.Valid() && Conforming(lim, runs, probes) && Good(runs, size)
    ensures !Contradicted(Replay(lim, runs, probes).segments, size)
  {
    var segs := Replay(lim, runs, probes).segments;
    Conservation(lim, runs, probes);
    AlwaysLocated(lim, runs, probes);
    ProcessedWithinWords(runs, Replay(lim, runs, probes));
    AlwaysTiling(lim, runs, probes);
    if |segs| > 0 {
      AscendingNeverBackwards(segs);
    }
    ObtainedInsideImage(runs, Replay(lim, runs, probes), size);
  }

  lemma {:induction false} ObtainedInsideImage(runs: seq<MemoryRun>, w: Walk, size: nat)
    requires Good(runs, size) && Tiling(runs, w) && Located(runs, w)
    ensures GotEnd(w.segments) <= size
  {
    GotEndIsAnEnd(w.segments);
    if GotEnd(w.segments) != 0 {
      var i :| 0 <= i < |w.segments| && w.segments[i].End() == GotEnd(w.segments);
      var a := w.segments[i].End() - 1;
      assert w.segments[i].Covers(a);
      assert Covered(w.segments, a) <==> Passed(runs, w, a);
      if InRuns(runs[..w.run], a) {
        var j :| 0 <= j < w.run && runs[..w.run][j].Covers(a);
        assert runs[j].End() <= size;
      }
    }
  }

  lemma {:induction false} LogExtends(base: seq<Call>, probes: seq<Probe>, p: Probe)
    ensures base + ReadCalls(probes) + [ReadCall(p.request, Some(p.result))] == base + ReadCalls(probes + [p])
  {
  }

  /** What of the surroundings an acquisition may leave a trace in. */
  datatype Surroundings = Surroundings(
    hasherFaults: nat, fsFaults: nat, cancelSeen: bool, files: Disk, history: seq<Disk>, handles: set<string>)

  /** From `before` to `after` only the file at `path` changed on the disk, and nothing was forgotten. */
  ghost predicate Progressed(path: string, before: Surroundings, after: Surroundings) {
    && before.hasherFaults <= after.hasherFaults
    && before.fsFaults <= after.fsFaults
    && (before.cancelSeen ==> after.cancelSeen)
    && Without(after.files, path) == Without(before.files, path)
    && before.history <= after.history
    && TouchedOnly(path, before.files, after.history, |before.history|)
    && after.handles == before.handles
  }

  lemma {:induction false} ProgressedOn(path: string, a: Surroundings, b: Surroundings, c: Surroundings)
    requires Progressed(path, a, b) && Progressed(path, b, c)
    ensures Progressed(path, a, c)
  {
    forall k | |a.history| <= k < |c.history|
      ensures Without(c.history[k], path) == Without(a.files, path)
    {
      if k < |b.history| {
        assert c.history[k] == b.history[k];
      }
    }
  }

  /** A system operation failed, or the user cancelled. */
  ghost predicate Interrupted(before: Surroundings, after: Surroundings) {
    after.hasherFaults > before.hasherFaults || after.fsFaults > before.fsFaults || after.cancelSeen
  }

  class Acquisition {
    const device: Device
    const writer: RawWriter
    const hasher: Sha256
    const cancelled: CancelFlag
    const lim: Limits
    const rateLimitMBps: u32
    const runs: seq<MemoryRun>

    var hashPosition: u64
    var offsetWithinRun: u64
    var processedPhysicalBytes: u64
    var transferredBytes: u64
    var acquiredBytes: u64
    var unreadableBytes: u64
    var unreadable: seq<Span>

    /** The reads answered and accepted so far, and the device log before the first of them. */
    ghost var probes: seq<Probe>
    /** Where they have led. */
    ghost var walk: Walk
    ghost const baseLog: seq<Call>

    constructor (device: Device, writer: RawWriter, hasher: Sha256, cancelled: CancelFlag,
                 lim: Limits, rateLimitMBps: u32, runs: seq<MemoryRun>)
      requires lim.Valid() && IsPowerOfTwo(lim.page)
      requires writer.Valid() && writer.isOpen && writer.Image() == Zeros(writer.logicalSize)
      requires hasher.initialized && hasher.absorbed == [] && device.Genuine()
      ensures this.device == device && this.writer == writer && this.hasher == hasher
      ensures this.cancelled == cancelled && this.lim == lim && this.rateLimitMBps == rateLimitMBps
      ensures this.runs == runs && baseLog == device.log && probes == []
      ensures Valid() && walk == START
    {
      this.device, this.writer, this.hasher, this.cancelled := device, writer, hasher, cancelled;
      this.lim, this.rateLimitMBps, this.runs := lim, rateLimitMBps, runs;
      hashPosition, offsetWithinRun, processedPhysicalBytes, transferredBytes := 0, 0, 0, 0;
      acquiredBytes, unreadableBytes, unreadable := 0, 0, [];
      probes, walk, baseLog := [], START, device.log;
      new;
      assert ReadCalls([]) == [];
      assert ImageOf([], writer.logicalSize) == Zeros(writer.logicalSize);
      assert ImageOf([], 0) == [];
    }

    /** The writer is open, the hasher is running. */
    ghost predicate Ready()
      reads writer, writer.fs, hasher
    {
      lim.Valid() && writer.Valid() && writer.isOpen && hasher.initialized
    }

    /** The hash and the image hold the bytes of this history, the hash up to `position`. */
    ghost predicate HoldsUpTo(segs: seq<Segment>, position: nat)
      requires Ready()
      reads writer, writer.fs, hasher
    {
      && hasher.absorbed == ImageOf(segs, position)
      && writer.Image() == ImageOf(segs, writer.logicalSize)
    }

    /** The hash stands where the obtained bytes end. */
    ghost predicate Holds(segs: seq<Segment>)
      requires Ready()
      reads this`hashPosition, writer, writer.fs, hasher
    {
      HoldsUpTo(segs, hashPosition) && GotEnd(segs) == hashPosition
    }

    /** The counters and the spans tell of this history. */
    ghost predicate Tallies(segs: seq<Segment>)
      reads this`unreadable, this`unreadableBytes, this`acquiredBytes, this`transferredBytes,
            this`processedPhysicalBytes
    {
      && unreadable == Coalesce(segs)
      && (|unreadable| > 0 ==> unreadable[|unreadable| - 1].End() <= U64_MAX)
      && acquiredBytes == transferredBytes == GotBytes(segs)
      && unreadableBytes == LostBytes(segs)
      && processedPhysicalBytes == Accounted(segs)
    }

    ghost predicate Evidence(segs: seq<Segment>)
      requires Ready()
      reads this`hashPosition, this`unreadable, this`unreadableBytes, this`acquiredBytes, this`transferredBytes,
            this`processedPhysicalBytes, writer, writer.fs, hasher
    {
      Holds(segs) && Tallies(segs)
    }

    /** The device was asked exactly the accepted reads. */
    ghost predicate Logged()
      reads this`probes, this`walk, device
    {
      lim.Valid() && Conforming(lim, runs, probes) && walk == Replay(lim, runs, probes)
      && device.Genuine() && device.log == baseLog + ReadCalls(probes)
    }

    ghost predicate Valid()
      reads this, device, writer, writer.fs, hasher
    {
      Ready() && Logged() && Evidence(walk.segments)
    }

    /** The walk stands in run `i` reading in bulk, or has just passed it. */
    ghost predicate AtRun(i: nat)
      reads this
    {
      i < |runs| && offsetWithinRun <= runs[i].length
      && walk == Settle(runs, i, offsetWithinRun, walk.segments)
    }

    method HashZerosTo(next: u64) returns (ok: bool)
      modifies this`hashPosition, hasher`absorbed, hasher`clock
      ensures ok ==> next >= old(hashPosition) && hashPosition == next
                     && hasher.absorbed == old(hasher.absorbed) + Zeros(next - old(hashPosition))
      ensures !ok ==> next < old(hashPosition) || !hasher.initialized || hasher.Faults() > old(hasher.Faults())
      ensures hasher.Faults() >= old(hasher.Faults())
    {
      if next < hashPosition {
        return false;
      }
      if next > hashPosition {
        ok := hasher.UpdateZeros(next - hashPosition);
        if !ok {
          return;
        }
      }
      hashPosition := next;
      return true;
    }

    /** Waiting for the transfer rate ends early only by cancellation. */
    method PaceTransfer() returns (ok: bool)
      modifies cancelled
      ensures !ok ==> cancelled.Seen()
      ensures old(cancelled.Seen()) ==> cancelled.Seen()
    {
      if rateLimitMBps == 0 {
        return true;
      }
      var stop := cancelled.Load();
      return !stop;
    }

    /** Hashes the gap before the bytes, writes them and hashes them. */
    method Store(address: u64, data: seq<byte>) returns (ok: bool)
      requires Ready()
      modifies this`hashPosition, hasher`absorbed, hasher`clock, writer.fs
      ensures Ready()
      ensures ok ==> old(hashPosition) <= address == hashPosition && address + |data| <= writer.logicalSize
      ensures ok ==> hasher.absorbed == old(hasher.absorbed) + Zeros(address - old(hashPosition)) + data
      ensures ok ==> writer.Image() == Splice(old(writer.Image()), address, data)
      ensures !ok ==> Interrupted(old(Around()), Around())
                      || address < old(hashPosition) || address + |data| > writer.logicalSize
      ensures Progressed(writer.path, old(Around()), Around())
    {
      ok := HashZerosTo(address);
      if ok {
        ok := writer.WriteAt(address, data);
      }
      if ok {
        ok := hasher.Update(data);
      }
    }

    /** Adds to the position and to the counters, none of which may leave 64 bits. */
    method Count(n: u64, ghost segs: seq<Segment>, ghost s: Segment) returns (ok: bool)
      requires Tallies(segs) && s.Got? && s.Length() == n
      modifies this`hashPosition, this`offsetWithinRun, this`processedPhysicalBytes, this`transferredBytes,
               this`acquiredBytes
      ensures ok ==> Tallies(segs + [s]) && offsetWithinRun == old(offsetWithinRun) + n
                     && hashPosition == old(hashPosition) + n
      ensures GotEnd(segs + [s]) == Max(GotEnd(segs), s.End())
      ensures !ok ==> old(hashPosition) + n > U64_MAX || old(offsetWithinRun) + n > U64_MAX
                      || old(processedPhysicalBytes) + n > U64_MAX
    {
      TotalsOneMore(segs, s);
      if hashPosition > U64_MAX - n || offsetWithinRun > U64_MAX - n || processedPhysicalBytes > U64_MAX - n
         || acquiredBytes > U64_MAX - n || transferredBytes > U64_MAX - n {
        return false;
      }
      hashPosition := hashPosition + n;
      offsetWithinRun := offsetWithinRun + n;
      processedPhysicalBytes := processedPhysicalBytes + n;
      acquiredBytes := acquiredBytes + n;
      transferredBytes := transferredBytes + n;
      return true;
    }

    /** Bytes a read returned become evidence. */
    method Absorb(address: u64, data: seq<byte>, ghost segs: seq<Segment>) returns (ok: bool)
      requires Ready() && Evidence(segs)
      requires |data| > 0 && address + |data| <= U64_MAX && offsetWithinRun + |data| <= U64_MAX
      modifies this`hashPosition, this`offsetWithinRun, this`processedPhysicalBytes, this`transferredBytes,
               this`acquiredBytes, hasher`absorbed, hasher`clock, writer.fs, cancelled
      ensures Ready()
      ensures ok ==> Evidence(segs + [Got(address, data)])
      ensures ok ==> offsetWithinRun == old(offsetWithinRun) + |data| && hashPosition == address + |data|
      ensures !ok ==> Interrupted(old(Around()), Around())
                      || Contradicted(segs + [Got(address, data)], writer.logicalSize)
      ensures Progressed(writer.path, old(Around()), Around())
    {
      ContradictedByGot(segs, address, data, writer.logicalSize);
      ok := Store(address, data);
      if !ok {
        return;
      }
      GotWritesImage(segs, address, data, writer.logicalSize);
      GotExtendsHash(segs, old(hashPosition), address, data);
      assert HoldsUpTo(segs + [Got(address, data)], address + |data|);
      ok := Count(|data|, segs, Got(address, data));
      if ok {
        ok := PaceTransfer();
      }
    }

    ghost function Around(): Surroundings
      reads hasher, writer, writer.fs, cancelled
    {
      SurroundingsOf(hasher, writer, cancelled)
    }

    /** A stretch no read could return: extends the last span if it continues it, else starts one. */
    method AddUnreadable(start: u64, length: u64, status: i32, ghost segs: seq<Segment>) returns (ok: bool)
      requires unreadable == Coalesce(segs) && unreadableBytes == LostBytes(segs) && start + length <= U64_MAX
      requires |unreadable| > 0 ==> unreadable[|unreadable| - 1].End() <= U64_MAX
      modifies this`unreadable, this`unreadableBytes
      ensures ok ==> unreadable == Coalesce(segs + [Lost(start, length, status)])
                     && unreadableBytes == LostBytes(segs + [Lost(start, length, status)])
                     && unreadable[|unreadable| - 1].End() <= U64_MAX
      ensures !ok ==> length == 0 || old(unreadableBytes) + length > U64_MAX
    {
      TotalsOneMore(segs, Lost(start, length, status));
      if length == 0 || length > U64_MAX - unreadableBytes {
        return false;
      }
      unreadableBytes := unreadableBytes + length;
      if |unreadable| != 0 {
        var previous := unreadable[|unreadable| - 1];
        if previous.start <= U64_MAX - previous.length && previous.start + previous.length == start
           && previous.status == status && previous.length <= U64_MAX - length {
          unreadable := unreadable[|unreadable| - 1 := previous.(length := previous.length + length)];
          return true;
        }
      }
      unreadable := unreadable + [Span(start, length, status)];
      return true;
    }

    /** A page, or the part of it in the window, is given up as unreadable. */
    method GiveUp(start: u64, length: u64, status: i32, ghost segs: seq<Segment>) returns (ok: bool)
      requires Ready() && Evidence(segs) && length > 0 && start + length <= U64_MAX
      requires offsetWithinRun + length <= U64_MAX
      modifies this`unreadable, this`unreadableBytes, this`processedPhysicalBytes, this`offsetWithinRun
      ensures Ready()
      ensures ok ==> Evidence(segs + [Lost(start, length, status)])
                     && offsetWithinRun == old(offsetWithinRun) + length
      ensures !ok ==> Contradicted(segs + [Lost(start, length, status)], writer.logicalSize)
    {
      LostLeavesImage(segs, Lost(start, length, status), hashPosition);
      LostLeavesImage(segs, Lost(start, length, status), writer.logicalSize);
      TotalsOneMore(segs, Lost(start, length, status));
      ok := AddUnreadable(start, length, status, segs);
      if !ok || processedPhysicalBytes > U64_MAX - length {
        return false;
      }
      processedPhysicalBytes := processedPhysicalBytes + length;
      offsetWithinRun := offsetWithinRun + length;
      return true;
    }

    /** One device read through the result filter, unless the acquisition is cancelled. */
    method ReadOnce(run: MemoryRun, length: u32) returns (result: Option<ReadResult>)
      requires Logged() && Active(runs, walk)
      requires ReadRequest(run.driverIndex, offsetWithinRun, length) == NextRequest(lim, runs, walk)
      requires run.base + offsetWithinRun == Here(runs, walk)
      modifies device, this`probes, this`walk, cancelled
      ensures result.Some? ==>
                && Accepts(lim, runs, old(walk), result.value)
                && Logged() && walk == Step(lim, runs, old(walk), result.value)
                && Led(lim, runs, old(walk), result.value.copied, walk)
      ensures result.None? ==> Refused() || (Logged() && cancelled.Seen())
      ensures old(cancelled.Seen()) ==> cancelled.Seen()
    {
      var stop := cancelled.Load();
      if stop {
        return None;
      }
      var request := ReadRequest(run.driverIndex, offsetWithinRun, length);
      result := device.Read(request);
      if result.Some? && ValidateReadResult(result.value, run.base + offsetWithinRun, length) {
        ConformingExtends(lim, runs, probes, Probe(request, result.value));
        LogExtends(baseLog, probes, Probe(request, result.value));
        probes := probes + [Probe(request, result.value)];
        StepLeads(lim, runs, walk, result.value);
        walk := Step(lim, runs, walk, result.value);
      } else {
        assert RefusedRead(lim, runs, walk, ReadCall(request, result));
        result := None;
      }
    }

    /** The last call was the read the policy asked for, and it was not usable. */
    ghost predicate Refused()
      reads this`probes, this`walk, device
    {
      && lim.Valid() && Conforming(lim, runs, probes) && walk == Replay(lim, runs, probes)
      && device.Genuine() && |device.log| > 0
      && var call := device.log[|device.log| - 1];
         device.log == baseLog + ReadCalls(probes) + [call] && RefusedRead(lim, runs, walk, call)
    }

    /** Why the engine gave up inside a run. */
    ghost predicate Excused(before: Surroundings)
      reads this`probes, this`walk, device, writer, hasher, writer.fs, cancelled
    {
      || Refused()
      || (Logged() && (Interrupted(before, Around()) || Contradicted(walk.segments, writer.logicalSize)
                       || StandsInInsaneRun(runs, walk)))
    }

    /** What an answered read does to the evidence: bytes are absorbed, an isolated page without any is given up. */
    method Take(result: ReadResult, requested: u32, isolating: bool, ghost w: Walk) returns (ok: bool)
      requires Ready() && Active(runs, w) && offsetWithinRun == w.offset && Evidence(w.segments)
      requires Accepts(lim, runs, w, result) && requested == NextLength(lim, runs, w)
      requires isolating == w.phase.Isolating?
      requires walk == Step(lim, runs, w, result)
      modifies this`hashPosition, this`offsetWithinRun, this`processedPhysicalBytes, this`transferredBytes,
               this`acquiredBytes, this`unreadable, this`unreadableBytes,
               hasher`absorbed, hasher`clock, writer.fs, cancelled
      ensures Ready()
      ensures ok ==> Evidence(walk.segments)
      ensures ok ==> offsetWithinRun
                       == w.offset + (if isolating && result.copied == 0 then requested else result.copied)
      ensures !ok ==> Interrupted(old(Around()), Around()) || Contradicted(walk.segments, writer.logicalSize)
      ensures Progressed(writer.path, old(Around()), Around())
    {
      if result.copied != 0 {
        ok := Absorb(result.physicalAddress, result.data, w.segments);
      } else if !isolating {
        ok := true;
      } else {
        ok := GiveUp(result.physicalAddress, requested, result.copyStatus, w.segments);
      }
    }

    /** The next read of the policy and what becomes of its answer. */
    method ReadAndTake(run: MemoryRun, requested: u32, isolating: bool) returns (ok: bool, copied: u32)
      requires Valid() && Active(runs, walk) && offsetWithinRun == walk.offset && run == runs[walk.run]
      requires requested == NextLength(lim, runs, walk) && isolating == walk.phase.Isolating?
      modifies this`probes, this`walk, device, this`hashPosition, this`offsetWithinRun,
               this`processedPhysicalBytes, this`transferredBytes, this`acquiredBytes, this`unreadable,
               this`unreadableBytes, hasher`absorbed, hasher`clock, writer.fs, cancelled
      ensures Ready()
      ensures ok ==> Valid() && Led(lim, runs, old(walk), copied, walk)
      ensures ok ==> offsetWithinRun
                       == old(offsetWithinRun) + (if isolating && copied == 0 then requested else copied)
      ensures !ok ==> Excused(old(Around()))
      ensures Progressed(writer.path, old(Around()), Around())
    {
      ghost var w := walk;
      var answer := ReadOnce(run, requested);
      ghost var here := Around();
      ok, copied := answer.Some?, 0;
      if ok {
        copied := answer.value.copied;
        ok := Take(answer.value, requested, isolating, w);
        ProgressedOn(writer.path, old(Around()), here, Around());
      }
    }

    /** The walk isolates the window up to `chunkEnd` in run `i`. */
    ghost predicate InWindow(i: nat, chunkEnd: nat)
      reads this
    {
      Active(runs, walk) && walk == Walk(i, offsetWithinRun, Isolating(chunkEnd), walk.segments)
    }

    /** One page of a window: `whole` if all of it came back. */
    method IsolatePage(i: nat, chunkEnd: u64) returns (ok: bool, whole: bool)
      requires IsPowerOfTwo(lim.page)
      requires Valid() && InWindow(i, chunkEnd)
      modifies this`probes, this`walk, device, this`hashPosition, this`offsetWithinRun,
               this`processedPhysicalBytes, this`transferredBytes, this`acquiredBytes, this`unreadable,
               this`unreadableBytes, hasher`absorbed, hasher`clock, writer.fs, cancelled
      ensures Ready()
      ensures ok ==> Valid() && old(offsetWithinRun) < offsetWithinRun <= chunkEnd
      ensures ok ==> if whole || offsetWithinRun == chunkEnd then AtRun(i) else InWindow(i, chunkEnd)
      ensures !ok ==> Excused(old(Around()))
      ensures Progressed(writer.path, old(Around()), Around())
    {
      ghost var w := walk;
      var physicalAddress := runs[i].base + offsetWithinRun;
      MaskIsModulo(physicalAddress, lim.page);
      var bytesToPageBoundary := lim.page - BitAnd(physicalAddress, lim.page - 1);
      var requested: u32 := Min(bytesToPageBoundary, chunkEnd - offsetWithinRun);
      var copied;
      ok, copied := ReadAndTake(runs[i], requested, true);
      whole := copied == requested;
    }

    /** Page by page through the unread rest of a short bulk read, until a whole page comes back. */
    method IsolateWindow(i: nat, chunkEnd: u64) returns (ok: bool)
      requires IsPowerOfTwo(lim.page)
      requires Valid() && InWindow(i, chunkEnd)
      modifies this`probes, this`walk, device, this`hashPosition, this`offsetWithinRun,
               this`processedPhysicalBytes, this`transferredBytes, this`acquiredBytes, this`unreadable,
               this`unreadableBytes, hasher`absorbed, hasher`clock, writer.fs, cancelled
      ensures Ready()
      ensures ok ==> Valid() && AtRun(i) && old(offsetWithinRun) < offsetWithinRun <= chunkEnd
      ensures !ok ==> Excused(old(Around()))
      ensures Progressed(writer.path, old(Around()), Around())
    {
      while offsetWithinRun < chunkEnd
        invariant Valid() && old(offsetWithinRun) <= offsetWithinRun <= chunkEnd
        invariant if offsetWithinRun < chunkEnd then InWindow(i, chunkEnd) else AtRun(i)
        invariant Progressed(writer.path, old(Around()), Around())
        decreases chunkEnd - offsetWithinRun
      {
        ghost var here := Around();
        var whole;
        ok, whole := IsolatePage(i, chunkEnd);
        ProgressedOn(writer.path, old(Around()), here, Around());
        if !ok {
          return;
        }
        if whole {
          break;
        }
      }
      ok := true;
    }

    /** One bulk read; `chunkEnd` is where the window it leaves unread ends. */
    method ReadBulk(i: nat) returns (ok: bool, short: bool, chunkEnd: u64)
      requires Valid() && AtRun(i) && runs[i].End() <= U64_MAX && offsetWithinRun < runs[i].length
      modifies this`probes, this`walk, device, this`hashPosition, this`offsetWithinRun,
               this`processedPhysicalBytes, this`transferredBytes, this`acquiredBytes, this`unreadable,
               this`unreadableBytes, hasher`absorbed, hasher`clock, writer.fs, cancelled
      ensures Ready()
      ensures ok ==> Valid() && old(offsetWithinRun) <= offsetWithinRun
      ensures ok ==> if short then InWindow(i, chunkEnd) else AtRun(i) && old(offsetWithinRun) < offsetWithinRun
      ensures !ok ==> Excused(old(Around()))
      ensures Progressed(writer.path, old(Around()), Around())
    {
      ghost var w := walk;
      assert w == Walk(i, offsetWithinRun, Bulk, w.segments);
      var requested: u32 := Min(lim.transfer, runs[i].length - offsetWithinRun);
      var copied;
      ok, copied := ReadAndTake(runs[i], requested, false);
      short, chunkEnd := false, 0;
      if ok {
        BulkLeads(lim, runs, w, copied, walk);
        short := copied != requested;
        if short {
          chunkEnd := Min(runs[i].length, offsetWithinRun + (requested - copied));
        }
      }
    }

    /** A bulk read, and the isolation of what it left unread. */
    method ReadWindow(i: nat) returns (ok: bool)
      requires IsPowerOfTwo(lim.page)
      requires Valid() && AtRun(i) && runs[i].End() <= U64_MAX && offsetWithinRun < runs[i].length
      modifies this`probes, this`walk, device, this`hashPosition, this`offsetWithinRun,
               this`processedPhysicalBytes, this`transferredBytes, this`acquiredBytes, this`unreadable,
               this`unreadableBytes, hasher`absorbed, hasher`clock, writer.fs, cancelled
      ensures Ready()
      ensures ok ==> Valid() && AtRun(i) && old(offsetWithinRun) < offsetWithinRun
      ensures !ok ==> Excused(old(Around()))
      ensures Progressed(writer.path, old(Around()), Around())
    {
      var short, chunkEnd;
      ok, short, chunkEnd := ReadBulk(i);
      if ok && short {
        ghost var here := Around();
        ok := IsolateWindow(i, chunkEnd);
        ProgressedOn(writer.path, old(Around()), here, Around());
      }
    }

    /** One run: bulk reads, each followed by isolation if it came back short. */
    method AcquireRun(i: nat) returns (ok: bool)
      requires IsPowerOfTwo(lim.page)
      requires Valid() && i < |runs| && runs[i].length > 0 && runs[i].End() <= U64_MAX
      requires walk == Walk(i, 0, Bulk, walk.segments)
      modifies this`probes, this`walk, device, this`hashPosition, this`offsetWithinRun,
               this`processedPhysicalBytes, this`transferredBytes, this`acquiredBytes, this`unreadable,
               this`unreadableBytes, hasher`absorbed, hasher`clock, writer.fs, cancelled
      ensures Ready()
      ensures ok ==> Valid() && walk == Walk(i + 1, 0, Bulk, walk.segments)
      ensures !ok ==> Excused(old(Around()))
      ensures Progressed(writer.path, old(Around()), Around())
    {
      offsetWithinRun := 0;
      ok := ReadWindows(i);
    }

    /** Window after window up to the end of the run. */
    method ReadWindows(i: nat) returns (ok: bool)
      requires IsPowerOfTwo(lim.page)
      requires Valid() && AtRun(i) && runs[i].End() <= U64_MAX
      modifies this`probes, this`walk, device, this`hashPosition, this`offsetWithinRun,
               this`processedPhysicalBytes, this`transferredBytes, this`acquiredBytes, this`unreadable,
               this`unreadableBytes, hasher`absorbed, hasher`clock, writer.fs, cancelled
      ensures Ready()
      ensures ok ==> Valid() && AtRun(i) && offsetWithinRun == runs[i].length
      ensures !ok ==> Excused(old(Around()))
      ensures Progressed(writer.path, old(Around()), Around())
    {
      while offsetWithinRun < runs[i].length
        invariant Valid() && AtRun(i)
        invariant Progressed(writer.path, old(Around()), Around())
        decreases runs[i].length - offsetWithinRun
      {
        ghost var here := Around();
        ok := ReadWindow(i);
        ProgressedOn(writer.path, old(Around()), here, Around());
        if !ok {
          return;
        }
      }
      ok := true;
    }

    /** What the device was asked since the start, which keeps to the policy. */
    ghost predicate OnPolicy()
      reads this`probes, device
    {
      lim.Valid() && baseLog <= device.log && KeptToPolicy(lim, runs, device.log[|baseLog|..], probes)
    }

    /** Why it ended early: an interruption, a refusal of the device, or a run table it cannot follow. */
    ghost predicate Accused(before: Surroundings, t: Topology)
      reads this`probes, device, hasher, writer, writer.fs, cancelled
    {
      || Interrupted(before, Around())
      || (baseLog <= device.log && Refusing(device.log[|baseLog|..], |probes|))
      || !Good(runs, Min(writer.logicalSize, t.highestEnd))
    }

    /** A run that gave up was interrupted, rejected by the device, or asked for the impossible. */
    lemma {:induction false} Explain(before: Surroundings, t: Topology)
      requires Excused(before) && t.runs == runs
      ensures OnPolicy() && Accused(before, t)
    {
      if Refused() {
        var call := device.log[|device.log| - 1];
        PolicyShows(lim, runs, baseLog, probes, [call]);
        assert device.log[|baseLog|..][|probes|] == call;
      } else {
        LoggedIsOnPolicy();
        if !Interrupted(before, Around()) {
          ContradictionConvicts(lim, t, probes, writer.logicalSize);
        }
      }
    }

    lemma {:induction false} LoggedIsOnPolicy()
      requires Logged()
      ensures OnPolicy()
    {
      PolicyShows(lim, runs, baseLog, probes, []);
      assert device.log == baseLog + ReadCalls(probes) + [];
    }

    /** Hashes the zeros after the last run. */
    method PadHash(t: Topology) returns (ok: bool)
      requires Valid() && t.runs == runs && Finished(runs, walk)
      modifies this`hashPosition, hasher`absorbed, hasher`clock
      ensures Ready()
      ensures ok ==> hasher.absorbed == ImageOf(walk.segments, t.highestEnd)
      ensures !ok ==> hasher.Faults() > old(hasher.Faults()) || !Good(runs, Min(writer.logicalSize, t.highestEnd))
      ensures hasher.Faults() >= old(hasher.Faults())
    {
      if GotEnd(walk.segments) > t.highestEnd {
        ContradictionConvicts(lim, t, probes, writer.logicalSize);
      } else {
        PaddingExtendsHash(walk.segments, GotEnd(walk.segments), t.highestEnd);
      }
      ok := HashZerosTo(t.highestEnd);
    }

    /** Ends the session once every run has been read. */
    method EndSession() returns (ok: bool, topologyChanged: bool)
      requires Logged() && Finished(runs, walk)
      modifies device
      ensures device.Genuine() && OnPolicy()
      ensures ok ==> device.log[|baseLog|..] == ReadCalls(probes) + [EndCall(Some(topologyChanged))]
      ensures !ok ==> Refusing(device.log[|baseLog|..], |probes|)
    {
      var changed := device.End();
      ok := changed.Some?;
      topologyChanged := ok && changed.value;
      PolicyShows(lim, runs, baseLog, probes, [EndCall(changed)]);
      assert device.log[|baseLog|..][|probes|] == EndCall(changed);
    }

    method AcquireRuns() returns (ok: bool)
      requires IsPowerOfTwo(lim.page)
      requires Valid() && walk == START
      modifies this`probes, this`walk, device, this`hashPosition, this`offsetWithinRun,
               this`processedPhysicalBytes, this`transferredBytes, this`acquiredBytes, this`unreadable,
               this`unreadableBytes, hasher`absorbed, hasher`clock, writer.fs, cancelled
      ensures Ready()
      ensures ok ==> Valid() && Finished(runs, walk) && Sane(runs)
      ensures !ok ==> Excused(old(Around()))
      ensures Progressed(writer.path, old(Around()), Around())
    {
      for i := 0 to |runs|
        invariant Valid() && walk == Walk(i, 0, Bulk, walk.segments)
        invariant SaneUpTo(runs, i)
        invariant Progressed(writer.path, old(Around()), Around())
      {
        if runs[i].length == 0 || runs[i].base > U64_MAX - runs[i].length {
          return false;
        }
        ghost var here := Around();
        ok := AcquireRun(i);
        ProgressedOn(writer.path, old(Around()), here, Around());
        if !ok {
          return;
        }
      }
      SaneWhenAllAre(runs);
      ok := true;
    }

    /** Everything was read, told of and hashed, and the session was ended. */
    ghost predicate Whole(t: Topology, topologyChanged: bool)
      requires Ready()
      reads this, device, writer, writer.fs, hasher
    {
      && Conforming(lim, runs, probes) && walk == Replay(lim, runs, probes) && Finished(runs, walk)
      && Tallies(walk.segments)
      && hasher.absorbed == ImageOf(walk.segments, t.highestEnd)
      && writer.Image() == ImageOf(walk.segments, writer.logicalSize)
      && baseLog <= device.log
      && device.log[|baseLog|..] == ReadCalls(probes) + [EndCall(Some(topologyChanged))]
    }

    /** After the last run: the padding of the hash and the end of the session. */
    method Conclude(t: Topology) returns (ok: bool, topologyChanged: bool)
      requires Valid() && t.runs == runs && Finished(runs, walk)
      modifies device, this`hashPosition, hasher`absorbed, hasher`clock
      ensures Ready() && device.Genuine() && OnPolicy()
      ensures ok ==> Whole(t, topologyChanged)
      ensures !ok ==> || hasher.Faults() > old(hasher.Faults()) || Refusing(device.log[|baseLog|..], |probes|)
                      || !Good(runs, Min(writer.logicalSize, t.highestEnd))
      ensures hasher.Faults() >= old(hasher.Faults())
    {
      topologyChanged := false;
      ok := PadHash(t);
      if ok {
        ok, topologyChanged := EndSession();
      } else {
        LoggedIsOnPolicy();
      }
    }

    /** All runs, the padding of the hash, and the end of the session. */
    method Perform(t: Topology) returns (ok: bool, topologyChanged: bool)
      requires IsPowerOfTwo(lim.page)
      requires Valid() && walk == START && t.runs == runs
      modifies this`probes, this`walk, device, this`hashPosition, this`offsetWithinRun,
               this`processedPhysicalBytes, this`transferredBytes, this`acquiredBytes, this`unreadable,
               this`unreadableBytes, hasher`absorbed, hasher`clock, writer.fs, cancelled
      ensures Ready() && device.Genuine() && OnPolicy()
      ensures ok ==> Sane(runs) && Whole(t, topologyChanged)
      ensures !ok ==> Accused(old(Around()), t)
      ensures Progressed(writer.path, old(Around()), Around())
    {
      topologyChanged := false;
      ok := AcquireRuns();
      if ok {
        ghost var here := Around();
        ok, topologyChanged := Conclude(t);
        ProgressedOn(writer.path, old(Around()), here, Around());
      } else {
        Explain(old(Around()), t);
      }
    }
  }

  // ---- the whole acquisition ----

  /** A topology the engine can start from. */
  predicate Usable(topology: Option<Topology>) {
    && topology.Some?
    && topology.value.highestEnd != 0
    && topology.value.totalBytes != 0
    && |topology.value.runs| > 0
  }

  function SummaryOf(t: Topology, segs: seq<Segment>, topologyChanged: bool): AcquisitionSummary
    requires GotBytes(segs) <= U64_MAX && LostBytes(segs) <= U64_MAX
  {
    AcquisitionSummary(true, topologyChanged, t.highestEnd, t.totalBytes, GotBytes(segs), LostBytes(segs), "",
                       t.runs, Coalesce(segs))
  }

  /** The calls of an acquisition that went all the way: query, conforming reads to the end, end. */
  ghost predicate RanToEnd(lim: Limits, calls: seq<Call>, t: Topology, probes: seq<Probe>, changed: bool)
    requires lim.Valid()
  {
    && calls == [QueryCall(Some(t))] + ReadCalls(probes) + [EndCall(Some(changed))]
    && Usable(Some(t)) && Sane(t.runs)
    && Conforming(lim, t.runs, probes) && Finished(t.runs, Replay(lim, t.runs, probes))
  }

  /** The summary tells of these reads and of nothing else; the digest is not part of it yet. */
  ghost predicate Summarizes(lim: Limits, calls: seq<Call>, summary: AcquisitionSummary, probes: seq<Probe>)
    requires lim.Valid()
  {
    var t := Topology(summary.logicalSize, summary.physicalBytes, summary.ranges);
    var segs := Replay(lim, t.runs, probes).segments;
    && RanToEnd(lim, calls, t, probes, summary.topologyChanged)
    && GotBytes(segs) <= U64_MAX && LostBytes(segs) <= U64_MAX
    && summary.(sha256 := "") == SummaryOf(t, segs, summary.topologyChanged)
  }

  /** The segments a summary's reads have made. */
  ghost function History(lim: Limits, summary: AcquisitionSummary, probes: seq<Probe>): seq<Segment>
    requires lim.Valid()
  {
    Replay(lim, summary.ranges, probes).segments
  }

  /** The query, and after a usable answer the reads of the policy and at most one call that concludes them. */
  ghost predicate Followed(lim: Limits, calls: seq<Call>, probes: seq<Probe>)
    requires lim.Valid()
  {
    && |calls| > 0 && calls[0].QueryCall?
    && if Usable(calls[0].topology) then KeptToPolicy(lim, calls[0].topology.value.runs, calls[1..], probes)
       else calls == [calls[0]] && probes == []
  }

  /** The device ended the acquisition: by its answer to the query, to a read or to the end call. */
  ghost predicate RejectedByDevice(lim: Limits, calls: seq<Call>, probes: seq<Probe>)
    requires lim.Valid()
  {
    Followed(lim, calls, probes) && (!Usable(calls[0].topology) || Refusing(calls[1..], |probes|))
  }

  /** The device's run table was not one the image and the hash can follow. */
  ghost predicate BadTable(calls: seq<Call>, size: nat) {
    && |calls| > 0 && calls[0].QueryCall? && Usable(calls[0].topology)
    && !Good(calls[0].topology.value.runs, Min(size, calls[0].topology.value.highestEnd))
  }

  /** A failed check of the engine convicts the run table. */
  lemma {:induction false} ContradictionConvicts(lim: Limits, t: Topology, probes: seq<Probe>, size: nat)
    requires lim.Valid() && Conforming(lim, t.runs, probes)
    requires var segs := Replay(lim, t.runs, probes).segments;
             || Contradicted(segs, size) || GotEnd(segs) > t.highestEnd
             || StandsInInsaneRun(t.runs, Replay(lim, t.runs, probes))
    ensures !Good(t.runs, Min(size, t.highestEnd))
  {
    if Good(t.runs, Min(size, t.highestEnd)) {
      GoodNeverContradicted(lim, t.runs, probes, Min(size, t.highestEnd));
    }
  }

  /** How many of the calls are reads. */
  function ReadsIn(calls: seq<Call>): nat {
    if |calls| == 0 then 0 else ReadsIn(calls[..|calls| - 1]) + (if calls[|calls| - 1].ReadCall? then 1 else 0)
  }

  lemma {:induction false} ReadsInReadCalls(probes: seq<Probe>)
    ensures ReadsIn(ReadCalls(probes)) == |probes|
  {
    if |probes| > 0 {
      var init := probes[..|probes| - 1];
      ReadsInReadCalls(init);
      assert ReadCalls(probes)[..|probes| - 1] == ReadCalls(init);
    }
  }

  lemma {:induction false} ReadsInRest(first: Call, rest: seq<Call>)
    requires !first.ReadCall?
    ensures ReadsIn([first] + rest) == ReadsIn(rest)
  {
    var all := [first] + rest;
    if |rest| > 0 {
      ReadsInRest(first, rest[..|rest| - 1]);
      assert all[..|all| - 1] == [first] + rest[..|rest| - 1];
    } else {
      assert all[..0] == [];
    }
  }

  lemma {:induction false} ReadsOneMore(calls: seq<Call>, call: Call)
    ensures ReadsIn(calls + [call]) == ReadsIn(calls) + (if call.ReadCall? then 1 else 0)
  {
    assert (calls + [call])[..|calls|] == calls;
  }

  /** The reads of the policy, and the concluding call if it was one. */
  lemma {:induction false} PolicyReads(lim: Limits, runs: seq<MemoryRun>, calls: seq<Call>, probes: seq<Probe>)
    requires lim.Valid() && KeptToPolicy(lim, runs, calls, probes)
    ensures ReadsIn(calls) <= 2 * SumLengths(runs)
  {
    ReadsInReadCalls(probes);
    ReadBound(lim, runs, probes);
    if |calls| > |probes| {
      assert calls == ReadCalls(probes) + [calls[|probes|]];
      ReadsOneMore(ReadCalls(probes), calls[|probes|]);
    } else {
      assert calls == calls[..|probes|];
    }
  }

  /** However an acquisition ends, it has made at most two reads per byte of run length. */
  lemma {:induction false} ReadsBounded(lim: Limits, calls: seq<Call>, probes: seq<Probe>)
    requires lim.Valid() && Followed(lim, calls, probes)
    ensures Usable(calls[0].topology) ==> ReadsIn(calls) <= 2 * SumLengths(calls[0].topology.value.runs)
    ensures !Usable(calls[0].topology) ==> ReadsIn(calls) == 0
  {
    assert calls == [calls[0]] + calls[1..];
    ReadsInRest(calls[0], calls[1..]);
    if Usable(calls[0].topology) {
      PolicyReads(lim, calls[0].topology.value.runs, calls[1..], probes);
    }
  }

  /** From the answered query on: the runs, the padding of the hash, the end call. */
  method AcquireTopology(device: Device, writer: RawWriter, hasher: Sha256, cancelled: CancelFlag,
                         lim: Limits, rateLimitMBps: u32, t: Topology)
    returns (ok: bool, summary: AcquisitionSummary, ghost probes: seq<Probe>)
    requires lim.Valid() && IsPowerOfTwo(lim.page)
    requires writer.Valid() && writer.isOpen && writer.Image() == Zeros(writer.logicalSize)
    requires hasher.initialized && hasher.absorbed == [] && device.Genuine()
    modifies device, hasher`absorbed, hasher`clock, writer.fs, cancelled
    ensures writer.Valid() && writer.isOpen && hasher.initialized && ok == summary.completed
    ensures device.Genuine() && old(device.log) <= device.log
    ensures KeptToPolicy(lim, t.runs, device.log[|old(device.log)|..], probes)
    ensures ok ==>
              var segs := Replay(lim, t.runs, probes).segments;
              && device.log[|old(device.log)|..] == ReadCalls(probes) + [EndCall(Some(summary.topologyChanged))]
              && Sane(t.runs) && Finished(t.runs, Replay(lim, t.runs, probes))
              && GotBytes(segs) <= U64_MAX && LostBytes(segs) <= U64_MAX
              && summary == SummaryOf(t, segs, summary.topologyChanged)
              && hasher.absorbed == ImageOf(segs, t.highestEnd)
              && writer.Image() == ImageOf(segs, writer.logicalSize)
    ensures !ok ==>
              || Interrupted(old(SurroundingsOf(hasher, writer, cancelled)), SurroundingsOf(hasher, writer, cancelled))
              || Refusing(device.log[|old(device.log)|..], |probes|)
              || !Good(t.runs, Min(writer.logicalSize, t.highestEnd))
    ensures Progressed(writer.path, old(SurroundingsOf(hasher, writer, cancelled)),
                       SurroundingsOf(hasher, writer, cancelled))
  {
    var a := new Acquisition(device, writer, hasher, cancelled, lim, rateLimitMBps, t.runs);
    var changed;
    ok, changed := a.Perform(t);
    probes := a.probes;
    summary := AcquisitionSummary(ok, changed, t.highestEnd, t.totalBytes, a.acquiredBytes, a.unreadableBytes, "",
                                  t.runs, a.unreadable);
  }

  /** The query in front of the rest makes the whole log of an acquisition. */
  lemma {:induction false} QueryThenRest(lim: Limits, t: Topology, rest: seq<Call>, summary: AcquisitionSummary,
                                         probes: seq<Probe>)
    requires lim.Valid() && Usable(Some(t)) && Sane(t.runs)
    requires Conforming(lim, t.runs, probes) && Finished(t.runs, Replay(lim, t.runs, probes))
    requires rest == ReadCalls(probes) + [EndCall(Some(summary.topologyChanged))]
    requires var segs := Replay(lim, t.runs, probes).segments;
             GotBytes(segs) <= U64_MAX && LostBytes(segs) <= U64_MAX
             && summary == SummaryOf(t, segs, summary.topologyChanged)
    ensures Summarizes(lim, [QueryCall(Some(t))] + rest, summary, probes)
  {
    assert [QueryCall(Some(t))] + rest
        == [QueryCall(Some(t))] + ReadCalls(probes) + [EndCall(Some(summary.topologyChanged))];
  }

  lemma {:induction false} LogSplits(base: seq<Call>, first: Call, log: seq<Call>)
    requires base + [first] <= log
    ensures log[|base|..] == [first] + log[|base| + 1..]
  {
    assert log[|base|] == (base + [first])[|base|];
  }

  lemma {:induction false} QueryThenPolicy(lim: Limits, t: Topology, rest: seq<Call>, probes: seq<Probe>, size: nat)
    requires lim.Valid() && Usable(Some(t)) && KeptToPolicy(lim, t.runs, rest, probes)
    ensures Followed(lim, [QueryCall(Some(t))] + rest, probes)
    ensures Refusing(rest, |probes|) ==> RejectedByDevice(lim, [QueryCall(Some(t))] + rest, probes)
    ensures !Good(t.runs, Min(size, t.highestEnd)) ==> BadTable([QueryCall(Some(t))] + rest, size)
  {
    assert ([QueryCall(Some(t))] + rest)[1..] == rest;
  }

  /**
   The acquisition.  However it ends, the device was asked the query, the reads of the policy in order and
   at most one call more.
   */
  method Acquire(device: Device, writer: RawWriter, hasher: Sha256, cancelled: CancelFlag,
                 lim: Limits, rateLimitMBps: u32)
    returns (ok: bool, summary: AcquisitionSummary, ghost probes: seq<Probe>)
    requires lim.Valid() && IsPowerOfTwo(lim.page)
    requires writer.Valid() && writer.isOpen && writer.Image() == Zeros(writer.logicalSize)
    requires hasher.initialized && hasher.absorbed == [] && device.Genuine()
    modifies device, hasher`absorbed, hasher`clock, writer.fs, cancelled
    ensures writer.Valid() && writer.isOpen && hasher.initialized
    ensures device.Genuine() && old(device.log) <= device.log && ok == summary.completed
    ensures Followed(lim, device.log[|old(device.log)|..], probes)
    ensures ok ==>
              && Summarizes(lim, device.log[|old(device.log)|..], summary, probes)
              && hasher.absorbed == ImageOf(History(lim, summary, probes), summary.logicalSize)
              && writer.Image() == ImageOf(History(lim, summary, probes), writer.logicalSize)
    ensures !ok ==>
              var calls := device.log[|old(device.log)|..];
              || Interrupted(old(SurroundingsOf(hasher, writer, cancelled)), SurroundingsOf(hasher, writer, cancelled))
              || RejectedByDevice(lim, calls, probes)
              || BadTable(calls, writer.logicalSize)
    ensures Progressed(writer.path, old(SurroundingsOf(hasher, writer, cancelled)),
                       SurroundingsOf(hasher, writer, cancelled))
  {
    summary, probes := EMPTY_SUMMARY, [];
    var topology := device.Query();
    LogSplits(old(device.log), QueryCall(topology), device.log);
    if !Usable(topology) {
      return false, summary, probes;
    }
    ghost var queried := device.log;
    ok, summary, probes := AcquireTopology(device, writer, hasher, cancelled, lim, rateLimitMBps, topology.value);
    ghost var rest := device.log[|queried|..];
    LogSplits(old(device.log), QueryCall(topology), device.log);
    QueryThenPolicy(lim, topology.value, rest, probes, writer.logicalSize);
    if ok {
      QueryThenRest(lim, topology.value, rest, summary, probes);
    }
  }

  ghost function SurroundingsOf(hasher: Sha256, writer: RawWriter, cancelled: CancelFlag): Surroundings
    reads hasher, writer, writer.fs, cancelled
  {
    Surroundings(hasher.Faults(), writer.fs.Faults(), cancelled.Seen(),
                 writer.fs.files, writer.fs.history, writer.fs.handles.Keys)
  }
}
