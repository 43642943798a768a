/**
 The packed crash dump: the runs one after the other behind a header page.  Written directly during
 an acquisition, and written by the offline converter from a flat image, it has the same payload.
 */
module Zdmp {
  import opened Words
  import opened Runs
  import opened Segments
  import opened Engine
  import opened Files
  import opened Hex
  import opened RawWriters
  import opened MapFiles
  import MapWriter

  const HEADER_BYTES: nat := 4096
  const MAX_DWORD: nat := 0xFFFF_FFFF
  const CONVERT_CHUNK_BYTES: nat := 1024 * 1024

  /** Unsigned 64-bit arithmetic. */
  function Wrap(x: nat): u64 {
    x % 0x1_0000_0000_0000_0000
  }

  /** Where the payload of run `i` begins in the file. */
  function SlotOf(runs: seq<MemoryRun>, i: nat): u64
    requires i <= |runs|
  {
    Wrap(HEADER_BYTES + SumLengths(runs[..i]))
  }

  /** The first run from `i` on that holds the address decides; the header size when none does. */
  function OffsetFrom(runs: seq<MemoryRun>, i: nat, a: u64): u64
    requires i <= |runs|
    decreases |runs| - i
  {
    if i == |runs| then HEADER_BYTES
    else if runs[i].base <= a < Wrap(runs[i].End()) then Wrap(SlotOf(runs, i) + (a - runs[i].base))
    else OffsetFrom(runs, i + 1, a)
  }

  function FileOffset(runs: seq<MemoryRun>, a: u64): u64 {
    OffsetFrom(runs, 0, a)
  }

  // ---- the writer ----

  ghost predicate Addressed(segs: seq<Segment>) {
    forall i :: 0 <= i < |segs| ==> segs[i].start <= U64_MAX
  }

  /** The file after the obtained segments have been written in order. */
  ghost function Packed(header: seq<byte>, runs: seq<MemoryRun>, segs: seq<Segment>): seq<byte>
    requires Addressed(segs)
  {
    if |segs| == 0 then header
    else
      var before := Packed(header, runs, segs[..|segs| - 1]);
      var last := segs[|segs| - 1];
      if last.Got? then Splice(before, FileOffset(runs, last.start), last.data) else before
  }

  class ZdmpWriter {
    const fs: FileSystem
    var path: string
    var isOpen: bool
    var runs: seq<MemoryRun>
    var runFileOffsets: seq<u64>

    constructor (fs: FileSystem)
      ensures this.fs == fs && !isOpen && runs == [] && runFileOffsets == []
    {
      this.fs := fs;
      path, isOpen, runs, runFileOffsets := "", false, [], [];
    }

    ghost predicate Configured()
      reads this
    {
      |runFileOffsets| == |runs| && forall i :: 0 <= i < |runs| ==> runFileOffsets[i] == SlotOf(runs, i)
    }

    ghost predicate Valid()
      reads this, fs
    {
      fs.Valid() && Configured() && (isOpen ==> path in fs.handles)
    }

    method Configure(runs: seq<MemoryRun>)
      modifies this`runs, this`runFileOffsets
      ensures this.runs == runs && Configured()
    {
      this.runs := runs;
      runFileOffsets := [];
      var currentOffset: u64 := HEADER_BYTES;
      for i := 0 to |runs|
        invariant this.runs == runs && |runFileOffsets| == i
        invariant forall k :: 0 <= k < i ==> runFileOffsets[k] == SlotOf(runs, k)
        invariant currentOffset == SlotOf(runs, i)
      {
        runFileOffsets := runFileOffsets + [currentOffset];
        SlotAdvances(runs, i);
        currentOffset := Wrap(currentOffset + runs[i].length);
      }
    }

    method PreflightAndOpen(partialPath: string, header: seq<byte>) returns (ok: bool)
      requires Valid() && !isOpen && |header| == HEADER_BYTES
      modifies this`path, this`isOpen, fs
      ensures Valid() && runs == old(runs)
      ensures ok ==> isOpen && path == partialPath && fs.files == old(fs.files)[partialPath := header]
      ensures !ok ==> partialPath in old(fs.handles) || fs.Failing(old(fs.Faults()))
      ensures Without(fs.files, partialPath) == Without(old(fs.files), partialPath)
    {
      ok := fs.CreateAlways(partialPath);
      if ok {
        path, isOpen := partialPath, true;
        var accepted, written := fs.Write(path, header);
        ok := accepted && written == |header|;
        if ok {
          SpliceFresh(header);
          assert header[..written] == header;
        }
      }
    }

    method CalculateFileOffset(physicalAddress: u64) returns (offset: u64)
      requires Configured()
      ensures offset == FileOffset(runs, physicalAddress)
    {
      for i := 0 to |runs|
        invariant FileOffset(runs, physicalAddress) == OffsetFrom(runs, i, physicalAddress)
      {
        if runs[i].base <= physicalAddress && physicalAddress < Wrap(runs[i].base + runs[i].length) {
          return Wrap(runFileOffsets[i] + (physicalAddress - runs[i].base));
        }
      }
      return HEADER_BYTES;
    }

    /** Places the data where the address of its first byte belongs: one more segment in the packed file. */
    method WriteAt(offset: u64, data: seq<byte>, ghost header: seq<byte>, ghost segs: seq<Segment>) returns (ok: bool)
      requires Valid() && Addressed(segs)
      modifies fs
      ensures Valid() && fs.handles.Keys == old(fs.handles).Keys
      ensures ok ==> isOpen && |data| > 0 && FileOffset(runs, offset) <= I64_MAX
      ensures !ok ==> !isOpen || |data| == 0 || FileOffset(runs, offset) > I64_MAX || fs.Failing(old(fs.Faults()))
      ensures ok ==> fs.files == old(fs.files)[path := Splice(old(fs.files)[path], FileOffset(runs, offset), data)]
      ensures ok && old(fs.files[path]) == Packed(header, runs, segs) ==>
                fs.files[path] == Packed(header, runs, segs + [Got(offset, data)])
      ensures Without(fs.files, path) == Without(old(fs.files), path)
    {
      if !isOpen || |data| == 0 {
        return false;
      }
      var fileOffset := CalculateFileOffset(offset);
      if fileOffset > I64_MAX {
        return false;
      }
      ok := fs.Seek(path, fileOffset);
      if ok {
        ok := WriteHere(fileOffset, data);
        assert (segs + [Got(offset, data)])[..|segs|] == segs;
      }
    }

    method WriteHere(fileOffset: u64, data: seq<byte>) returns (ok: bool)
      requires Valid() && isOpen && fs.handles[path] == fileOffset && |data| > 0
      modifies fs
      ensures Valid() && fs.handles.Keys == old(fs.handles).Keys
      ensures ok ==> fs.files == old(fs.files)[path := Splice(old(fs.files)[path], fileOffset, data)]
      ensures !ok ==> fs.Failing(old(fs.Faults()))
      ensures Without(fs.files, path) == Without(old(fs.files), path)
    {
      ghost var file := fs.files[path];
      var done: nat := 0;
      while done < |data|
        invariant done <= |data| && Valid()
        invariant fs.handles.Keys == old(fs.handles).Keys && fs.handles[path] == fileOffset + done
        invariant fs.Faults() >= old(fs.Faults())
        invariant done > 0 ==> fs.files == old(fs.files)[path := Splice(file, fileOffset, data[..done])]
        invariant done == 0 ==> fs.files == old(fs.files)
        invariant Without(fs.files, path) == Without(old(fs.files), path)
      {
        var chunk := Min(|data| - done, MAX_DWORD);
        var accepted, written := fs.Write(path, data[done..done + chunk]);
        if !accepted || written != chunk {
          return false;
        }
        ChunkJoins(file, fileOffset, data, done, chunk);
        done := done + chunk;
      }
      assert data[..done] == data;
      ok := true;
    }
  }

  lemma {:induction false} SpliceFresh(header: seq<byte>)
    ensures Splice([], 0, header) == header
  {
  }

  lemma {:induction false} ChunkJoins(file: seq<byte>, offset: nat, data: seq<byte>, done: nat, chunk: nat)
    requires done + chunk <= |data|
    ensures var piece := data[done..done + chunk];
            var before := if done == 0 then file else Splice(file, offset, data[..done]);
            Splice(before, offset + done, piece[..chunk]) == Splice(file, offset, data[..done + chunk])
  {
    var piece := data[done..done + chunk];
    assert piece[..chunk] == piece;
    if done == 0 {
      assert piece == data[..chunk];
    } else {
      assert data[..done] + piece == data[..done + chunk];
      SpliceTwice(file, offset, data[..done], piece);
    }
  }

  lemma {:induction false} WrapAdds(x: nat, y: nat)
    ensures Wrap(Wrap(x) + y) == Wrap(x + y)
  {
  }

  lemma {:induction false} SlotAdvances(runs: seq<MemoryRun>, i: nat)
    requires i < |runs|
    ensures SumLengths(runs[..i + 1]) == SumLengths(runs[..i]) + runs[i].length
    ensures SlotOf(runs, i + 1) == Wrap(SlotOf(runs, i) + runs[i].length)
  {
    assert runs[..i + 1][..i] == runs[..i];
    WrapAdds(HEADER_BYTES + SumLengths(runs[..i]), runs[i].length);
  }

  // ---- where addresses land ----

  /** Every payload offset fits in 64 bits. */
  predicate Packs(runs: seq<MemoryRun>) {
    HEADER_BYTES + SumLengths(runs) <= U64_MAX + 1
  }

  lemma {:induction false} OffsetSkipsTo(runs: seq<MemoryRun>, j: nat, i: nat, a: u64)
    requires Sane(runs) && SortedDisjoint(runs) && j <= i < |runs| && runs[i].Covers(a)
    ensures OffsetFrom(runs, j, a) == Wrap(HEADER_BYTES + SumLengths(runs[..i]) + (a - runs[i].base))
    decreases i - j
  {
    if j < i {
      assert runs[j].End() <= runs[i].base;
      OffsetSkipsTo(runs, j + 1, i, a);
    } else {
      WrapAdds(HEADER_BYTES + SumLengths(runs[..i]), a - runs[i].base);
    }
  }

  /** Payload position of an address of run `i`, before any wrap. */
  function Position(runs: seq<MemoryRun>, i: nat, a: int): int
    requires i < |runs|
  {
    SumLengths(runs[..i]) + (a - runs[i].base)
  }

  lemma {:induction false} OffsetInRun(runs: seq<MemoryRun>, i: nat, a: u64)
    requires Sane(runs) && SortedDisjoint(runs) && i < |runs| && runs[i].Covers(a)
    ensures FileOffset(runs, a) == Wrap(HEADER_BYTES + Position(runs, i, a))
    ensures 0 <= Position(runs, i, a) < SumLengths(runs)
    ensures Packs(runs) ==> FileOffset(runs, a) == HEADER_BYTES + Position(runs, i, a)
  {
    OffsetSkipsTo(runs, 0, i, a);
    SlotAdvances(runs, i);
    SumLengthsPrefix(runs, i + 1);
  }

  lemma {:induction false} PositionsRise(runs: seq<MemoryRun>, i: nat, j: nat, a: int, b: int)
    requires SortedDisjoint(runs) && i < |runs| && j < |runs| && runs[i].Covers(a) && runs[j].Covers(b)
    requires a < b
    ensures i <= j && Position(runs, i, a) < Position(runs, j, b)
  {
    if i < j {
      SlotAdvances(runs, i);
      assert runs[..j][..i + 1] == runs[..i + 1];
      SumLengthsPrefix(runs[..j], i + 1);
    }
  }

  /** Every payload position belongs to an address of some run. */
  lemma {:induction false} PositionReached(runs: seq<MemoryRun>, n: nat, p: nat) returns (i: nat, a: u64)
    requires Sane(runs) && n <= |runs| && p < SumLengths(runs[..n])
    ensures i < n && runs[i].Covers(a) && Position(runs, i, a) == p
  {
    SlotAdvances(runs, n - 1);
    if p >= SumLengths(runs[..n - 1]) {
      i, a := n - 1, runs[n - 1].base + (p - SumLengths(runs[..n - 1]));
    } else {
      i, a := PositionReached(runs, n - 1, p);
    }
  }

  /** Populated addresses stay behind the header and keep their order. */
  ghost predicate KeepsOrder(runs: seq<MemoryRun>) {
    && (forall a: u64 :: InRuns(runs, a) ==> FileOffset(runs, a) >= HEADER_BYTES)
    && (forall a: u64, b: u64 :: InRuns(runs, a) && InRuns(runs, b) && a < b ==>
          FileOffset(runs, a) < FileOffset(runs, b))
  }

  /** Populated addresses fill the payload: nothing before it or after it, and no hole. */
  ghost predicate FillsPayload(runs: seq<MemoryRun>) {
    && (forall a: u64 :: InRuns(runs, a) ==> FileOffset(runs, a) < HEADER_BYTES + SumLengths(runs))
    && (forall o :: HEADER_BYTES <= o < HEADER_BYTES + SumLengths(runs) ==> ReachedAt(runs, o))
  }

  ghost predicate ReachedAt(runs: seq<MemoryRun>, o: int) {
    exists a: u64 :: InRuns(runs, a) && FileOffset(runs, a) == o
  }

  lemma {:induction false} PackedOrder(runs: seq<MemoryRun>)
    requires Sane(runs) && SortedDisjoint(runs) && Packs(runs)
    ensures KeepsOrder(runs)
  {
    forall a: u64 | InRuns(runs, a)
      ensures FileOffset(runs, a) >= HEADER_BYTES
    {
      var i :| 0 <= i < |runs| && runs[i].Covers(a);
      OffsetInRun(runs, i, a);
    }
    forall a: u64, b: u64 | InRuns(runs, a) && InRuns(runs, b) && a < b
      ensures FileOffset(runs, a) < FileOffset(runs, b)
    {
      var i :| 0 <= i < |runs| && runs[i].Covers(a);
      var j :| 0 <= j < |runs| && runs[j].Covers(b);
      OffsetInRun(runs, i, a);
      OffsetInRun(runs, j, b);
      PositionsRise(runs, i, j, a, b);
    }
  }

  lemma {:induction false} PackedFills(runs: seq<MemoryRun>)
    requires Sane(runs) && SortedDisjoint(runs) && Packs(runs)
    ensures FillsPayload(runs)
  {
    forall a: u64 | InRuns(runs, a)
      ensures FileOffset(runs, a) < HEADER_BYTES + SumLengths(runs)
    {
      var i :| 0 <= i < |runs| && runs[i].Covers(a);
      OffsetInRun(runs, i, a);
    }
    forall o | HEADER_BYTES <= o < HEADER_BYTES + SumLengths(runs)
      ensures ReachedAt(runs, o)
    {
      assert runs[..|runs|] == runs;
      var i, a := PositionReached(runs, |runs|, o - HEADER_BYTES);
      OffsetInRun(runs, i, a);
      assert InRuns(runs, a) && FileOffset(runs, a) == o;
    }
  }

  /** Past 2^64 the last populated byte lands in the header. */
  lemma {:induction false} UnpackedHitsHeader(runs: seq<MemoryRun>)
    requires Sane(runs) && SortedDisjoint(runs) && !Packs(runs)
    ensures !KeepsOrder(runs)
  {
    var n := |runs| - 1;
    var last := runs[n].End() - 1;
    SumWithinLastEnd(runs);
    SlotAdvances(runs, n);
    assert runs[..n + 1] == runs;
    assert runs[n].Covers(last);
    OffsetInRun(runs, n, last);
    assert InRuns(runs, last) && FileOffset(runs, last) < HEADER_BYTES;
  }

  /**
   The address-to-offset map is a strictly increasing bijection from the populated addresses onto the
   packed payload exactly when header and payload together fit in 64 bits.
   */
  lemma {:induction false} OffsetsAreABijectionIffPacked(runs: seq<MemoryRun>)
    requires Sane(runs) && SortedDisjoint(runs)
    ensures KeepsOrder(runs) && FillsPayload(runs) <==> Packs(runs)
  {
    if Packs(runs) {
      PackedOrder(runs);
      PackedFills(runs);
    } else {
      UnpackedHitsHeader(runs);
    }
  }

  /** A table the rest of the product accepts, whose last byte the index sends into the header. */
  lemma {:induction false} WrapExample()
    ensures var runs := [MemoryRun(0, 0, U64_MAX)];
            Sane(runs) && SortedDisjoint(runs) && FileOffset(runs, U64_MAX - 1) == 4094
  {
    var runs := [MemoryRun(0, 0, U64_MAX)];
    assert runs[0].Covers(U64_MAX - 1) && runs[..0] == [];
    OffsetInRun(runs, 0, U64_MAX - 1);
  }

  // ---- the payload ----

  /** A byte of the file, zero past its end. */
  function At(file: seq<byte>, o: nat): byte {
    if o < |file| then file[o] else 0
  }

  ghost predicate WithinOneRun(runs: seq<MemoryRun>, s: Segment) {
    exists i :: 0 <= i < |runs| && runs[i].base <= s.start && s.End() <= runs[i].End()
  }

  ghost predicate SegmentsInRuns(runs: seq<MemoryRun>, segs: seq<Segment>) {
    forall i :: 0 <= i < |segs| ==> segs[i].Length() > 0 && WithinOneRun(runs, segs[i])
  }

  /** Each segment an acquisition makes lies in one run, so each write stays in one run's slot. */
  lemma {:induction false} EverySegmentInOneRun(lim: Limits, runs: seq<MemoryRun>, probes: seq<Probe>)
    requires lim.Valid() && Conforming(lim, runs, probes)
    ensures SegmentsInRuns(runs, Replay(lim, runs, probes).segments)
  {
    if |probes| > 0 {
      var n := |probes| - 1;
      var w := Replay(lim, runs, probes[..n]);
      EverySegmentInOneRun(lim, runs, probes[..n]);
      StepShape(lim, runs, w, probes[n].result);
      match NewSegment(lim, runs, w, probes[n].result) {
        case None =>
        case Some(s) =>
          assert WithinOneRun(runs, s) by {
            assert runs[w.run].base <= s.start && s.End() <= runs[w.run].End();
          }
      }
    }
  }

  /** Within one run offsets advance with addresses. */
  lemma {:induction false} SegmentKeepsToSlot(runs: seq<MemoryRun>, s: Segment, a: u64)
    requires Sane(runs) && SortedDisjoint(runs) && Packs(runs) && WithinOneRun(runs, s) && s.Covers(a)
    ensures s.start <= U64_MAX && FileOffset(runs, a) == FileOffset(runs, s.start) + (a - s.start)
    ensures InRuns(runs, a)
  {
    var i :| 0 <= i < |runs| && runs[i].base <= s.start && s.End() <= runs[i].End();
    assert runs[i].Covers(a) && runs[i].Covers(s.start);
    OffsetInRun(runs, i, a);
    OffsetInRun(runs, i, s.start);
  }

  lemma {:induction false} SegmentFitsAddresses(runs: seq<MemoryRun>, segs: seq<Segment>)
    requires Sane(runs) && SegmentsInRuns(runs, segs)
    ensures Addressed(segs)
  {
    forall i | 0 <= i < |segs|
      ensures segs[i].start <= U64_MAX
    {
      assert WithinOneRun(runs, segs[i]);
    }
  }

  /** One write puts each of its bytes at the offset of that byte's address, and changes no other address. */
  lemma {:induction false} WriteReachesItsAddresses(file: seq<byte>, runs: seq<MemoryRun>, s: Segment, a: u64)
    requires Sane(runs) && SortedDisjoint(runs) && Packs(runs) && s.Got? && s.Length() > 0
    requires WithinOneRun(runs, s) && InRuns(runs, a)
    ensures s.start <= U64_MAX
    ensures At(Splice(file, FileOffset(runs, s.start), s.data), FileOffset(runs, a))
         == if s.Covers(a) then s.data[a - s.start] else At(file, FileOffset(runs, a))
  {
    var o := FileOffset(runs, a);
    assert s.Covers(s.start);
    SegmentKeepsToSlot(runs, s, s.start);
    if s.Covers(a) {
      SegmentKeepsToSlot(runs, s, a);
    } else if FileOffset(runs, s.start) <= o < FileOffset(runs, s.start) + |s.data| {
      var b := s.start + (o - FileOffset(runs, s.start));
      SameOffsetSameAddress(runs, s, a, b);
    }
  }

  lemma {:induction false} SameOffsetSameAddress(runs: seq<MemoryRun>, s: Segment, a: u64, b: nat)
    requires Sane(runs) && SortedDisjoint(runs) && Packs(runs) && WithinOneRun(runs, s)
    requires InRuns(runs, a) && s.Covers(b) && s.start <= U64_MAX
    requires FileOffset(runs, a) == FileOffset(runs, s.start) + (b - s.start)
    ensures a == b
  {
    var r :| 0 <= r < |runs| && runs[r].base <= s.start && s.End() <= runs[r].End();
    assert runs[r].End() <= U64_MAX;
    SegmentKeepsToSlot(runs, s, b);
    PackedOrder(runs);
  }

  /** In the packed file each populated address has the byte it has in the flat image. */
  lemma {:induction false} PackedHoldsImage(header: seq<byte>, runs: seq<MemoryRun>, segs: seq<Segment>, a: u64)
    requires Sane(runs) && SortedDisjoint(runs) && Packs(runs) && |header| == HEADER_BYTES
    requires SegmentsInRuns(runs, segs) && InRuns(runs, a)
    ensures Addressed(segs)
    ensures At(Packed(header, runs, segs), FileOffset(runs, a)) == ByteAt(segs, a)
  {
    SegmentFitsAddresses(runs, segs);
    if |segs| == 0 {
      PackedOrder(runs);
    } else {
      var last := segs[|segs| - 1];
      PackedHoldsImage(header, runs, segs[..|segs| - 1], a);
      if last.Got? {
        assert WithinOneRun(runs, last);
        WriteReachesItsAddresses(Packed(header, runs, segs[..|segs| - 1]), runs, last, a);
      }
    }
  }

  /** The header is left alone and nothing is written past the payload. */
  lemma {:induction false} PackedStaysInside(header: seq<byte>, runs: seq<MemoryRun>, segs: seq<Segment>)
    requires Sane(runs) && SortedDisjoint(runs) && Packs(runs) && |header| == HEADER_BYTES
    requires SegmentsInRuns(runs, segs)
    ensures Addressed(segs)
    ensures HEADER_BYTES <= |Packed(header, runs, segs)| <= HEADER_BYTES + SumLengths(runs)
    ensures Packed(header, runs, segs)[..HEADER_BYTES] == header
  {
    SegmentFitsAddresses(runs, segs);
    if |segs| > 0 {
      var last := segs[|segs| - 1];
      PackedStaysInside(header, runs, segs[..|segs| - 1]);
      if last.Got? {
        var i :| 0 <= i < |runs| && runs[i].base <= last.start && last.End() <= runs[i].End();
        OffsetInRun(runs, i, last.start);
        OffsetInRun(runs, i, last.End() - 1);
      }
    }
  }

  // ---- the offline converter ----

  datatype Extent = Extent(start: nat, length: nat)

  /** What a read of `length` bytes at `start` can deliver. */
  function Slice(raw: seq<byte>, start: nat, length: nat): seq<byte> {
    raw[Min(start, |raw|)..Min(start + length, |raw|)]
  }

  function Slices(raw: seq<byte>, extents: seq<Extent>): seq<byte> {
    if |extents| == 0 then []
    else
      var last := extents[|extents| - 1];
      Slices(raw, extents[..|extents| - 1]) + Slice(raw, last.start, last.length)
  }

  /** The extents of a map; `None` when an address does not parse. */
  function ParseExtents(ranges: seq<RangeEntry>): Option<seq<Extent>> {
    if |ranges| == 0 then Some([])
    else
      var before := ParseExtents(ranges[..|ranges| - 1]);
      var start := ranges[|ranges| - 1].ParseStart();
      if before.None? || start.None? then None
      else Some(before.value + [Extent(start.value, ranges[|ranges| - 1].length)])
  }

  /** The extents to convert: those of the map, or the whole image when the map has none. */
  function ExtentsToConvert(raw: seq<byte>, ranges: seq<RangeEntry>): Option<seq<Extent>> {
    if |ranges| == 0 then Some([Extent(0, |raw|)]) else ParseExtents(ranges)
  }

  method ConvertToZdmp(raw: seq<byte>, ranges: seq<RangeEntry>, header: seq<byte>) returns (output: Option<seq<byte>>)
    ensures match ExtentsToConvert(raw, ranges)
            case None => output == None
            case Some(extents) => output == Some(header + Slices(raw, extents))
  {
    var extents := ExtentsToConvert(raw, ranges);
    if extents.None? {
      return None;
    }
    var written := header;
    for index := 0 to |extents.value|
      invariant written == header + Slices(raw, extents.value[..index])
    {
      var copied := CopyExtent(raw, extents.value[index]);
      assert extents.value[..index + 1][..index] == extents.value[..index];
      written := written + copied;
    }
    assert extents.value[..|extents.value|] == extents.value;
    return Some(written);
  }

  /** Seeks to the extent and copies it piece by piece until it is done or the file ends. */
  method CopyExtent(raw: seq<byte>, extent: Extent) returns (copied: seq<byte>)
    ensures copied == Slice(raw, extent.start, extent.length)
  {
    copied := [];
    var remaining: nat := extent.length;
    while remaining > 0
      invariant remaining <= extent.length
      invariant copied == Slice(raw, extent.start, extent.length - remaining)
    {
      var position := extent.start + (extent.length - remaining);
      var data := Slice(raw, position, Min(remaining, CONVERT_CHUNK_BYTES));
      if |data| == 0 {
        NothingPastTheEnd(raw, extent.start, extent.length - remaining, remaining);
        break;
      }
      SlicesJoin(raw, extent.start, extent.length - remaining, Min(remaining, CONVERT_CHUNK_BYTES));
      copied := copied + data;
      remaining := remaining - |data|;
    }
  }

  lemma {:induction false} NothingPastTheEnd(raw: seq<byte>, start: nat, first: nat, second: nat)
    requires second > 0 && |Slice(raw, start + first, Min(second, CONVERT_CHUNK_BYTES))| == 0
    ensures Slice(raw, start, first) == Slice(raw, start, first + second)
  {
  }

  /** Adjacent reads make one read; a short one only happens at the end of the file. */
  lemma {:induction false} SlicesJoin(raw: seq<byte>, start: nat, first: nat, second: nat)
    ensures var data := Slice(raw, start + first, second);
            Slice(raw, start, first) + data == Slice(raw, start, first + |data|)
    ensures |Slice(raw, start + first, second)| <= second
  {
  }

  // ---- one payload by two routes ----

  function ExtentsOf(runs: seq<MemoryRun>): seq<Extent> {
    seq(|runs|, i requires 0 <= i < |runs| => Extent(runs[i].base, runs[i].length))
  }

  /** The map's ranges parse back to the runs. */
  lemma {:induction false} MapExtentsAreRuns(runs: seq<MemoryRun>)
    ensures ParseExtents(MapWriter.RangeEntries(runs)) == Some(ExtentsOf(runs))
  {
    if |runs| == 0 {
      assert ExtentsOf(runs) == [];
    } else {
      var n := |runs| - 1;
      MapExtentsAreRuns(runs[..n]);
      Hex64RoundTrip(runs[n].base);
      assert MapWriter.RangeEntries(runs)[..n] == MapWriter.RangeEntries(runs[..n]);
      assert ExtentsOf(runs[..n]) + [Extent(runs[n].base, runs[n].length)] == ExtentsOf(runs);
    }
  }

  lemma {:induction false} SlicesOfLastRun(raw: seq<byte>, runs: seq<MemoryRun>)
    requires |runs| > 0 && runs[|runs| - 1].End() <= |raw|
    ensures var last := runs[|runs| - 1];
            Slices(raw, ExtentsOf(runs)) == Slices(raw, ExtentsOf(runs[..|runs| - 1])) + raw[last.base..last.End()]
  {
    assert ExtentsOf(runs)[..|runs| - 1] == ExtentsOf(runs[..|runs| - 1]);
  }

  lemma {:induction false} SlicesLength(raw: seq<byte>, runs: seq<MemoryRun>)
    requires forall j :: 0 <= j < |runs| ==> runs[j].End() <= |raw|
    ensures |Slices(raw, ExtentsOf(runs))| == SumLengths(runs)
  {
    if |runs| > 0 {
      SlicesLength(raw, runs[..|runs| - 1]);
      SlicesOfLastRun(raw, runs);
    }
  }

  /** At the position of an address of run `i` the converted payload holds that address of the image. */
  lemma {:induction false} SlicesHoldImage(raw: seq<byte>, runs: seq<MemoryRun>, i: nat, a: u64)
    requires forall j :: 0 <= j < |runs| ==> runs[j].End() <= |raw|
    requires i < |runs| && runs[i].Covers(a)
    ensures a < |raw| && 0 <= Position(runs, i, a) < |Slices(raw, ExtentsOf(runs))|
    ensures Slices(raw, ExtentsOf(runs))[Position(runs, i, a)] == raw[a]
    decreases |runs|
  {
    var n := |runs| - 1;
    var before := Slices(raw, ExtentsOf(runs[..n]));
    SlicesLength(raw, runs[..n]);
    SlicesOfLastRun(raw, runs);
    if i < n {
      assert runs[..n][i] == runs[i] && runs[..n][..i] == runs[..i];
      SlicesHoldImage(raw, runs[..n], i, a);
      assert Position(runs[..n], i, a) == Position(runs, i, a);
      ByteOfFirst(before, raw[runs[n].base..runs[n].End()], Position(runs, i, a));
    } else {
      SliceInsideLast(raw, before, runs[n].base, runs[n].End(), a);
    }
  }

  lemma {:induction false} ByteOfFirst(first: seq<byte>, second: seq<byte>, k: nat)
    requires k < |first|
    ensures (first + second)[k] == first[k]
  {
  }

  lemma {:induction false} SliceInsideLast(raw: seq<byte>, before: seq<byte>, lo: nat, hi: nat, a: nat)
    requires lo <= a < hi <= |raw|
    ensures (before + raw[lo..hi])[|before| + (a - lo)] == raw[a]
  {
  }

  /** What the direct dump misses of the converted payload is zeros at the end. */
  ghost predicate SamePayload(direct: seq<byte>, payload: seq<byte>) {
    && HEADER_BYTES <= |direct| <= HEADER_BYTES + |payload|
    && payload == direct[HEADER_BYTES..] + Zeros(HEADER_BYTES + |payload| - |direct|)
  }

  /** Position `p` of the converted payload is byte `p` behind the header of the direct dump. */
  lemma {:induction false} PayloadByteAgrees(header: seq<byte>, runs: seq<MemoryRun>, segs: seq<Segment>, size: nat, p: nat)
    requires Sane(runs) && SortedDisjoint(runs) && Packs(runs) && |header| == HEADER_BYTES
    requires SegmentsInRuns(runs, segs) && forall j :: 0 <= j < |runs| ==> runs[j].End() <= size
    requires p < SumLengths(runs)
    ensures Addressed(segs)
    ensures p < |Slices(ImageOf(segs, size), ExtentsOf(runs))|
    ensures Slices(ImageOf(segs, size), ExtentsOf(runs))[p] == At(Packed(header, runs, segs), HEADER_BYTES + p)
  {
    SegmentFitsAddresses(runs, segs);
    assert runs[..|runs|] == runs;
    var i, a := PositionReached(runs, |runs|, p);
    OffsetInRun(runs, i, a);
    assert InRuns(runs, a);
    PackedHoldsImage(header, runs, segs, a);
    SlicesHoldImage(ImageOf(segs, size), runs, i, a);
  }

  lemma {:induction false} PayloadsAgree(header: seq<byte>, runs: seq<MemoryRun>, segs: seq<Segment>, size: nat)
    requires Sane(runs) && SortedDisjoint(runs) && Packs(runs) && |header| == HEADER_BYTES
    requires SegmentsInRuns(runs, segs) && forall j :: 0 <= j < |runs| ==> runs[j].End() <= size
    ensures Addressed(segs)
    ensures SamePayload(Packed(header, runs, segs), Slices(ImageOf(segs, size), ExtentsOf(runs)))
  {
    PackedStaysInside(header, runs, segs);
    var payload := Slices(ImageOf(segs, size), ExtentsOf(runs));
    SlicesLength(ImageOf(segs, size), runs);
    forall p | 0 <= p < |payload|
      ensures payload[p] == At(Packed(header, runs, segs), HEADER_BYTES + p)
    {
      PayloadByteAgrees(header, runs, segs, size, p);
    }
  }

  /**
   Whatever the device answered, the dump written during the acquisition and the dump converted from
   the flat image by way of the map have the same payload, and the written one kept its header.
   */
  lemma {:induction false} ConversionCommutes(lim: Limits, runs: seq<MemoryRun>, probes: seq<Probe>,
                                              header: seq<byte>, size: nat)
    requires lim.Valid() && Sane(runs) && SortedDisjoint(runs) && |runs| > 0 && Packs(runs)
    requires |header| == HEADER_BYTES && Conforming(lim, runs, probes) && size >= HighestEnd(runs)
    ensures Addressed(Replay(lim, runs, probes).segments)
    ensures var segs := Replay(lim, runs, probes).segments;
            var extents := ExtentsToConvert(ImageOf(segs, size), MapWriter.RangeEntries(runs));
            && extents.Some?
            && SamePayload(Packed(header, runs, segs), Slices(ImageOf(segs, size), extents.value))
            && Packed(header, runs, segs)[..HEADER_BYTES] == header
  {
    var segs := Replay(lim, runs, probes).segments;
    EverySegmentInOneRun(lim, runs, probes);
    HighestEndBounds(runs);
    MapExtentsAreRuns(runs);
    PayloadsAgree(header, runs, segs, size);
    PackedStaysInside(header, runs, segs);
  }
}
