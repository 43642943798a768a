/** The producer's side of the sidecars: the map record, the hash line, and writing them durably. */
module MapWriter {
  import opened Words
  import opened Runs
  import opened Segments
  import opened Files
  import opened Hashing
  import opened Hex
  import opened MapFiles
  import opened AcquireEngine

  const WRITE_CHUNK_BYTES: nat := 1024 * 1024

  /** The 64-bit fields of the spans are 64-bit values. */
  ghost predicate SpansFit(spans: seq<Span>) {
    forall i :: 0 <= i < |spans| ==> spans[i].End() <= U64_MAX
  }

  function RangeEntries(runs: seq<MemoryRun>): seq<RangeEntry> {
    seq(|runs|, i requires 0 <= i < |runs| => RangeEntry(runs[i].driverIndex, Hex64(runs[i].base), runs[i].length))
  }

  function UnreadableEntries(spans: seq<Span>): seq<UnreadableEntry>
    requires SpansFit(spans)
  {
    seq(|spans|, i requires 0 <= i < |spans| =>
      UnreadableEntry(Hex64(spans[i].start), spans[i].length, Hex32(StatusBits(spans[i].status))))
  }

  /** The record the map file holds for a summary. */
  function MapOf(summary: AcquisitionSummary): MapFile
    requires SpansFit(summary.unreadable)
  {
    MapFile("PhylaRAM", "0.1.0-alpha", "phylaram-map-2",
            if summary.unreadableBytes != 0 || summary.topologyChanged then "incomplete" else "complete",
            summary.logicalSize, summary.physicalBytes, summary.acquiredBytes, summary.unreadableBytes,
            summary.topologyChanged, summary.sha256,
            RangeEntries(summary.ranges), UnreadableEntries(summary.unreadable))
  }

  /** What the map writer insists on before it writes anything. */
  predicate Writable(summary: AcquisitionSummary) {
    && summary.completed
    && IsSha256Hex(summary.sha256)
    && |summary.ranges| > 0
    && summary.acquiredBytes + summary.unreadableBytes <= U64_MAX
    && summary.acquiredBytes + summary.unreadableBytes == summary.physicalBytes
  }

  /** Texts read back as they were written, and so do the maps the writer writes. */
  ghost predicate Lawful(codec: Codec) {
    && (forall s: string :: codec.fromUtf8(codec.utf8(s)) == Some(s))
    && (forall summary: AcquisitionSummary :: SpansFit(summary.unreadable) && Writable(summary) ==>
          codec.parse(codec.render(MapOf(summary))) == Some(MapOf(summary)))
  }

  function SidecarText(sha256: string, fileName: string): string {
    sha256 + "  " + fileName + "\n"
  }

  /** Creates the file, writes all of it and flushes it, or leaves nothing behind. */
  method WriteAtomicString(fs: FileSystem, path: string, content: seq<byte>) returns (ok: bool)
    requires fs.Valid()
    modifies fs
    ensures fs.Valid() && fs.handles.Keys == old(fs.handles).Keys
    ensures ok ==> path !in old(fs.files) && fs.files == old(fs.files)[path := content]
    ensures !ok && (fs.DeletesWork() || path in old(fs.files)) ==> fs.files == old(fs.files)
    ensures !ok ==> path in old(fs.files) || fs.Faults() > old(fs.Faults())
    ensures Without(fs.files, path) == Without(old(fs.files), path)
    ensures old(fs.history) <= fs.history && fs.Faults() >= old(fs.Faults())
    ensures TouchedOnly(path, old(fs.files), fs.history, |old(fs.history)|)
  {
    ghost var before := fs.files;
    ok := fs.CreateNew(path);
    if !ok {
      return;
    }
    WithoutUpdated(before, path, []);
    ok := WriteContent(fs, path, content, before);
    fs.CloseHandle(path);
    if !ok {
      fs.Delete(path);
    }
  }

  /** So much of the content is in the new file, and the pointer stands behind it. */
  ghost predicate WrittenTo(fs: FileSystem, path: string, content: seq<byte>, offset: nat, before: Disk)
    reads fs
  {
    && fs.Valid() && path !in before && path in fs.handles && fs.handles[path] == offset <= |content|
    && fs.files == before[path := content[..offset]]
  }

  /** Writes the new file in chunks the system may cut short, and flushes it. */
  method WriteContent(fs: FileSystem, path: string, content: seq<byte>, ghost before: Disk) returns (ok: bool)
    requires WrittenTo(fs, path, content, 0, before)
    modifies fs
    ensures fs.Valid() && fs.handles.Keys == old(fs.handles).Keys
    ensures ok ==> fs.files == before[path := content]
    ensures !ok ==> fs.Faults() > old(fs.Faults())
    ensures path in fs.files && Without(fs.files, path) == before
    ensures old(fs.history) <= fs.history && fs.Faults() >= old(fs.Faults())
    ensures TouchedOnly(path, before, fs.history, |old(fs.history)|)
  {
    var offset: nat := 0;
    WithoutUpdated(before, path, content[..offset]);
    while offset < |content|
      invariant WrittenTo(fs, path, content, offset, before) && fs.handles.Keys == old(fs.handles).Keys
      invariant Without(fs.files, path) == before
      invariant old(fs.history) <= fs.history && fs.Faults() >= old(fs.Faults())
      invariant TouchedOnly(path, before, fs.history, |old(fs.history)|)
    {
      var written := WriteSome(fs, path, content, offset, before);
      if written == 0 {
        return false;
      }
      offset := offset + written;
    }
    assert content[..offset] == content;
    ok := fs.Control(path);
  }

  /** One request for the next chunk; nothing written is a failure. */
  method WriteSome(fs: FileSystem, path: string, content: seq<byte>, offset: nat, ghost before: Disk)
    returns (written: nat)
    requires WrittenTo(fs, path, content, offset, before) && offset < |content|
    modifies fs
    ensures WrittenTo(fs, path, content, offset + written, before) && fs.handles.Keys == old(fs.handles).Keys
    ensures written == 0 ==> fs.Faults() > old(fs.Faults())
    ensures fs.Faults() >= old(fs.Faults())
    ensures fs.history == old(fs.history) + [fs.files] && Without(fs.files, path) == before
  {
    var requested := Min(|content| - offset, WRITE_CHUNK_BYTES);
    var accepted, taken := fs.Write(path, content[offset..offset + requested]);
    written := if accepted then taken else 0;
    SpliceAppends(content, offset, requested, written);
    WithoutUpdated(before, path, content[..offset + written]);
  }

  lemma {:induction false} SpliceAppends(content: seq<byte>, offset: nat, requested: nat, written: nat)
    requires offset + requested <= |content| && written <= requested
    ensures Splice(content[..offset], offset, content[offset..offset + requested][..written])
         == content[..offset + written]
  {
  }

  method WriteMapJson(codec: Codec, fs: FileSystem, path: string, summary: AcquisitionSummary) returns (ok: bool)
    requires fs.Valid() && SpansFit(summary.unreadable)
    modifies fs
    ensures fs.Valid() && fs.handles.Keys == old(fs.handles).Keys
    ensures ok ==> Writable(summary) && path !in old(fs.files)
                   && fs.files == old(fs.files)[path := codec.utf8(codec.render(MapOf(summary)))]
    ensures !ok && (fs.DeletesWork() || path in old(fs.files)) ==> fs.files == old(fs.files)
    ensures !ok ==> !Writable(summary) || path in old(fs.files) || fs.Faults() > old(fs.Faults())
    ensures Without(fs.files, path) == Without(old(fs.files), path)
    ensures old(fs.history) <= fs.history && fs.Faults() >= old(fs.Faults())
    ensures TouchedOnly(path, old(fs.files), fs.history, |old(fs.history)|)
  {
    if !Writable(summary) {
      return false;
    }
    ok := WriteAtomicString(fs, path, codec.utf8(codec.render(MapOf(summary))));
  }

  /** The sidecar needs a name it can write down. */
  predicate Nameable(narrowed: Option<string>) {
    narrowed.Some? && narrowed.value != ""
  }

  /** `narrowed` is the file name in UTF-8 terms; the conversion may fail. */
  method WriteSha256Sidecar(codec: Codec, fs: FileSystem, path: string, narrowed: Option<string>, sha256: string)
    returns (ok: bool)
    requires fs.Valid()
    modifies fs
    ensures fs.Valid() && fs.handles.Keys == old(fs.handles).Keys
    ensures ok ==> IsSha256Hex(sha256) && Nameable(narrowed) && path !in old(fs.files)
                   && fs.files == old(fs.files)[path := codec.utf8(SidecarText(sha256, narrowed.value))]
    ensures !ok && (fs.DeletesWork() || path in old(fs.files)) ==> fs.files == old(fs.files)
    ensures !ok ==> || !IsSha256Hex(sha256) || !Nameable(narrowed) || path in old(fs.files)
                    || fs.Faults() > old(fs.Faults())
    ensures Without(fs.files, path) == Without(old(fs.files), path)
    ensures old(fs.history) <= fs.history && fs.Faults() >= old(fs.Faults())
    ensures TouchedOnly(path, old(fs.files), fs.history, |old(fs.history)|)
  {
    if !IsSha256Hex(sha256) || !Nameable(narrowed) {
      return false;
    }
    ok := WriteAtomicString(fs, path, codec.utf8(SidecarText(sha256, narrowed.value)));
  }
}
