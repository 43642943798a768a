/**
 The evidence transaction: stage the image, stage the sidecars, publish the sidecars and last the
 image, and take everything back when a step fails.
 */
module Transaction {
  import opened Words
  import opened Runs
  import opened Segments
  import opened Engine
  import opened Files
  import opened Hashing
  import opened RawWriters
  import opened Devices
  import opened AcquireEngine
  import opened MapFiles
  import opened MapWriter
  import opened EvidenceFiles

  // ---- names ----

  datatype OutputFormat = Raw | Zdmp | E01

  predicate IsSeparator(c: char) {
    c == '\\' || c == '/'
  }

  predicate IsDriveLetter(c: char) {
    'A' <= c <= 'Z' || 'a' <= c <= 'z'
  }

  /** What stands behind a drive prefix, if there is one. */
  function BehindDrive(path: string): string {
    if |path| > 1 && IsDriveLetter(path[0]) && path[1] == ':' then path[2..] else path
  }

  function LastComponent(path: string): string
    decreases |path|
  {
    if |path| == 0 || IsSeparator(path[|path| - 1]) then ""
    else LastComponent(path[..|path| - 1]) + [path[|path| - 1]]
  }

  /** The last component of a path, which is no part of its drive. */
  function FileName(path: string): string {
    LastComponent(BehindDrive(path))
  }

  /** From the last dot on; a name that only begins with a dot has no extension. */
  function ExtensionOf(name: string): string
    decreases |name|
  {
    if |name| <= 1 then ""
    else if name[|name| - 1] == '.' then (if name == ".." then "" else ".")
    else
      var rest := ExtensionOf(name[..|name| - 1]);
      if rest == "" then "" else rest + [name[|name| - 1]]
  }

  function Lower(c: char): char {
    if 'A' <= c <= 'Z' then (c as int + 32) as char else c
  }

  function ToLower(s: string): string {
    seq(|s|, i requires 0 <= i < |s| => Lower(s[i]))
  }

  function SelectFormat(configured: OutputFormat, outputPath: string): OutputFormat {
    var extension := ToLower(ExtensionOf(FileName(outputPath)));
    if configured != Raw then configured
    else if extension == ".zdmp" || extension == ".dmp" then Zdmp
    else if extension == ".e01" then E01
    else Raw
  }

  // ---- staging ----

  datatype EvidenceCaptureStatus = Complete | Incomplete | Cancelled | Failed

  lemma {:induction false} WithoutAndBack(base: Disk, path: string, disk: Disk)
    requires Without(disk, path) == base
    ensures path in disk ==> disk == base[path := disk[path]]
    ensures path !in disk ==> disk == base
  {
  }

  /**
   What a finished acquisition leaves: a query for the image size, then an acquisition that ran to
   the end, its summary with the digest of the logical image, and the bytes of the staged image.
   */
  ghost predicate Acquired(lim: Limits, digest: seq<byte> -> Digest, calls: seq<Call>, first: Topology,
                           summary: AcquisitionSummary, probes: seq<Probe>, image: seq<byte>)
    requires lim.Valid()
  {
    && |calls| > 0 && calls[0] == QueryCall(Some(first))
    && Summarizes(lim, calls[1..], summary, probes)
    && summary.sha256 == HexEncode(digest(ImageOf(History(lim, summary, probes), summary.logicalSize)))
    && image == ImageOf(History(lim, summary, probes), first.highestEnd)
    && first.totalBytes <= first.highestEnd
  }

  /** A system call was refused since, or the user has cancelled. */
  ghost predicate Disturbed(fs: FileSystem, fsFaults: nat, hasher: Sha256, hasherFaults: nat, cancelled: CancelFlag)
    reads fs, hasher, cancelled
  {
    fs.Faults() > fsFaults || hasher.Faults() > hasherFaults || cancelled.Seen()
  }

  /** The acquisition into an opened writer. */
  method AcquireInto(fs: FileSystem, writer: RawWriter, hasher: Sha256, device: Device, cancelled: CancelFlag,
                     lim: Limits, rateLimitMBps: u32, paths: EvidencePaths, ghost base: Disk)
    returns (ok: bool, summary: AcquisitionSummary, ghost probes: seq<Probe>)
    requires lim.Valid() && IsPowerOfTwo(lim.page) && device.Genuine()
    requires paths.Distinct() && Untouched(paths, base)
    requires writer.fs == fs && writer.Valid() && writer.isOpen && writer.path == paths.rawPartial
    requires fs.files == base[paths.rawPartial := Zeros(writer.logicalSize)]
    requires hasher.initialized && hasher.absorbed == []
    modifies fs, hasher, device, cancelled
    ensures writer.Valid() && writer.isOpen && hasher.initialized
    ensures fs.files == base[paths.rawPartial := writer.Image()] && fs.handles.Keys == old(fs.handles).Keys
    ensures device.Genuine() && old(device.log) <= device.log
    ensures ok ==>
              && Summarizes(lim, device.log[|old(device.log)|..], summary, probes)
              && hasher.absorbed == ImageOf(History(lim, summary, probes), summary.logicalSize)
              && writer.Image() == ImageOf(History(lim, summary, probes), writer.logicalSize)
    ensures !ok ==> || Disturbed(fs, old(fs.Faults()), hasher, old(hasher.Faults()), cancelled)
                    || RejectedByDevice(lim, device.log[|old(device.log)|..], probes)
                    || BadTable(device.log[|old(device.log)|..], writer.logicalSize)
    ensures fs.Faults() >= old(fs.Faults()) && hasher.Faults() >= old(hasher.Faults())
    ensures old(fs.history) <= fs.history && AllQuiet(paths, base, fs.history, |old(fs.history)|)
  {
    WithoutUpdated(base, paths.rawPartial, Zeros(writer.logicalSize));
    assert base[paths.rawPartial := Zeros(writer.logicalSize)] - paths.All() == base;
    ok, summary, probes := Acquire(device, writer, hasher, cancelled, lim, rateLimitMBps);
    TouchedStaysQuiet(paths, base, paths.rawPartial, old(fs.files), fs.history, |old(fs.history)|);
    WithoutAndBack(base, paths.rawPartial, fs.files);
  }

  /** The acquisition into an opened writer, up to the flushed and closed image file. */
  method FillImage(codec: Codec, fs: FileSystem, writer: RawWriter, hasher: Sha256, device: Device,
                   cancelled: CancelFlag, lim: Limits, rateLimitMBps: u32, paths: EvidencePaths, ghost base: Disk)
    returns (failure: Option<EvidenceCaptureStatus>, summary: AcquisitionSummary, ghost probes: seq<Probe>,
             ghost image: seq<byte>)
    requires lim.Valid() && IsPowerOfTwo(lim.page) && device.Genuine()
    requires paths.Distinct() && Untouched(paths, base)
    requires writer.fs == fs && writer.Valid() && writer.isOpen && writer.path == paths.rawPartial
    requires fs.files == base[paths.rawPartial := Zeros(writer.logicalSize)]
    requires fs.handles.Keys - {paths.rawPartial} !! paths.All()
    requires hasher.initialized && hasher.absorbed == [] && hasher.digest == codec.digest
    modifies fs, writer, hasher, device, cancelled
    ensures fs.Valid() && fs.handles.Keys == old(fs.handles).Keys - {paths.rawPartial}
    ensures device.Genuine() && old(device.log) <= device.log
    ensures failure.None? ==>
              && fs.files == base[paths.rawPartial := image]
              && Summarizes(lim, device.log[|old(device.log)|..], summary, probes)
              && summary.sha256 == HexEncode(codec.digest(ImageOf(History(lim, summary, probes), summary.logicalSize)))
              && image == ImageOf(History(lim, summary, probes), old(writer.logicalSize))
    ensures failure.Some? ==> failure == Some(Failed) || (failure == Some(Cancelled) && cancelled.Seen())
    ensures failure.Some? ==> || Disturbed(fs, old(fs.Faults()), hasher, old(hasher.Faults()), cancelled)
                              || RejectedByDevice(lim, device.log[|old(device.log)|..], probes)
                              || BadTable(device.log[|old(device.log)|..], old(writer.logicalSize))
    ensures failure.Some? && fs.DeletesWork() ==> fs.files == base
    ensures fs.Faults() >= old(fs.Faults()) && hasher.Faults() >= old(hasher.Faults())
    ensures old(fs.history) <= fs.history && AllQuiet(paths, base, fs.history, |old(fs.history)|)
  {
    var ok;
    ok, summary, probes := AcquireInto(fs, writer, hasher, device, cancelled, lim, rateLimitMBps, paths, base);
    image := writer.Image();
    if !ok {
      writer.Close();
      failure := AbandonImage(fs, paths, base, cancelled, old(fs.history));
      return;
    }
    var sha256;
    ok, sha256 := SealImage(fs, writer, hasher, paths, base, old(fs.history));
    summary := summary.(sha256 := sha256);
    failure := if ok then None else Some(Failed);
  }

  /** The digest, and the flushed and closed image; both or nothing. */
  method SealImage(fs: FileSystem, writer: RawWriter, hasher: Sha256, paths: EvidencePaths,
                   ghost base: Disk, ghost history: seq<Disk>)
    returns (ok: bool, sha256: string)
    requires paths.Distinct() && Untouched(paths, base)
    requires writer.fs == fs && writer.Valid() && writer.isOpen && writer.path == paths.rawPartial
    requires fs.files == base[paths.rawPartial := writer.Image()]
    requires fs.handles.Keys - {paths.rawPartial} !! paths.All()
    requires hasher.initialized
    requires history <= fs.history && AllQuiet(paths, base, fs.history, |history|)
    modifies fs, writer, hasher
    ensures fs.Valid() && fs.handles.Keys == old(fs.handles).Keys - {paths.rawPartial}
    ensures ok ==> fs.files == old(fs.files) && sha256 == HexEncode(hasher.digest(old(hasher.absorbed)))
    ensures !ok ==> fs.Faults() > old(fs.Faults()) || hasher.Faults() > old(hasher.Faults())
    ensures !ok && fs.DeletesWork() ==> fs.files == base
    ensures fs.Faults() >= old(fs.Faults()) && hasher.Faults() >= old(hasher.Faults())
    ensures history <= fs.history && AllQuiet(paths, base, fs.history, |history|)
  {
    ok, sha256 := hasher.Finish();
    if ok {
      ok := writer.FlushAndClose();
    } else {
      writer.Close();
    }
    if !ok {
      DropImage(fs, paths, base, history);
    }
  }

  /** Removes the staged image after a failure. */
  method DropImage(fs: FileSystem, paths: EvidencePaths, ghost base: Disk, ghost history: seq<Disk>)
    requires fs.Valid() && paths.Distinct() && Untouched(paths, base) && fs.handles.Keys !! paths.All()
    requires paths.rawPartial in fs.files && fs.files == base[paths.rawPartial := fs.files[paths.rawPartial]]
    requires history <= fs.history && AllQuiet(paths, base, fs.history, |history|)
    modifies fs
    ensures fs.Valid() && fs.handles == old(fs.handles) && fs.Faults() == old(fs.Faults())
    ensures fs.DeletesWork() ==> fs.files == base
    ensures history <= fs.history && AllQuiet(paths, base, fs.history, |history|)
  {
    assert fs.files - paths.All() == base;
    RemoveStagingFiles(fs, paths, base, {paths.rawPartial});
    if fs.DeletesWork() {
      assert {paths.rawPartial} - paths.Staging() == {};
      HoldingNothing(paths, base, fs.files);
    }
    QuietJoined(paths, base, old(fs.history), fs.history, |history|);
  }

  method AbandonImage(fs: FileSystem, paths: EvidencePaths, ghost base: Disk, cancelled: CancelFlag,
                      ghost history: seq<Disk>)
    returns (failure: Option<EvidenceCaptureStatus>)
    requires fs.Valid() && paths.Distinct() && Untouched(paths, base) && fs.handles.Keys !! paths.All()
    requires paths.rawPartial in fs.files && fs.files == base[paths.rawPartial := fs.files[paths.rawPartial]]
    requires history <= fs.history && AllQuiet(paths, base, fs.history, |history|)
    modifies fs, cancelled
    ensures fs.Valid() && fs.handles == old(fs.handles) && fs.Faults() == old(fs.Faults())
    ensures fs.DeletesWork() ==> fs.files == base
    ensures history <= fs.history && AllQuiet(paths, base, fs.history, |history|)
    ensures failure == Some(Failed) || (failure == Some(Cancelled) && cancelled.Seen())
    ensures old(cancelled.Seen()) ==> cancelled.Seen()
  {
    DropImage(fs, paths, base, history);
    var stop := cancelled.Load();
    failure := if stop then Some(Cancelled) else Some(Failed);
  }

  /** The image file of the queried size, and the acquisition into it. */
  method PreflightAndFill(codec: Codec, fs: FileSystem, volume: Volume, hasher: Sha256, device: Device,
                          cancelled: CancelFlag, lim: Limits, rateLimitMBps: u32, topology: Topology,
                          paths: EvidencePaths, ghost base: Disk)
    returns (failure: Option<EvidenceCaptureStatus>, summary: AcquisitionSummary, ghost probes: seq<Probe>,
             ghost image: seq<byte>)
    requires lim.Valid() && IsPowerOfTwo(lim.page) && device.Genuine()
    requires fs.Valid() && fs.files == base && paths.Distinct() && Untouched(paths, base)
    requires hasher.initialized && hasher.absorbed == [] && hasher.digest == codec.digest
    modifies fs, hasher, device, cancelled
    ensures fs.Valid() && fs.handles.Keys == old(fs.handles).Keys
    ensures device.Genuine() && old(device.log) <= device.log
    ensures failure.None? ==>
              && fs.files == base[paths.rawPartial := image]
              && Summarizes(lim, device.log[|old(device.log)|..], summary, probes)
              && summary.sha256 == HexEncode(codec.digest(ImageOf(History(lim, summary, probes), summary.logicalSize)))
              && image == ImageOf(History(lim, summary, probes), topology.highestEnd)
              && topology.totalBytes <= topology.highestEnd
    ensures failure.Some? ==> failure == Some(Failed) || (failure == Some(Cancelled) && cancelled.Seen())
    ensures failure.Some? ==> || Disturbed(fs, old(fs.Faults()), hasher, old(hasher.Faults()), cancelled)
                              || !Admits(volume, topology.highestEnd, topology.totalBytes)
                              || RejectedByDevice(lim, device.log[|old(device.log)|..], probes)
                              || BadTable(device.log[|old(device.log)|..], topology.highestEnd)
    ensures failure.Some? && fs.DeletesWork() ==> fs.files == base
    ensures fs.Faults() >= old(fs.Faults())
    ensures old(fs.history) <= fs.history && AllQuiet(paths, base, fs.history, |old(fs.history)|)
  {
    summary, probes, image := EMPTY_SUMMARY, [], [];
    var writer := new RawWriter(fs);
    var ok := writer.PreflightAndOpen(paths.rawPartial, topology.highestEnd, topology.totalBytes, volume);
    assert base - paths.All() == base;
    TouchedStaysQuiet(paths, base, paths.rawPartial, base, fs.history, |old(fs.history)|);
    if !ok {
      return Some(Failed), summary, probes, image;
    }
    ghost var preflighted := fs.history;
    failure, summary, probes, image :=
      FillImage(codec, fs, writer, hasher, device, cancelled, lim, rateLimitMBps, paths, base);
    QuietJoined(paths, base, preflighted, fs.history, |old(fs.history)|);
  }

  /** The total of a topology is not the sum of its runs. */
  ghost predicate Misstated(calls: seq<Call>) {
    && |calls| > 0 && calls[0].QueryCall? && calls[0].topology.Some?
    && calls[0].topology.value.totalBytes != SumLengths(calls[0].topology.value.runs)
  }

  /**
   What the device answered makes a capture impossible: no topology, one too large for the volume, a refusal
   during the acquisition, or a topology the engine cannot follow or that does not add up.
   */
  ghost predicate Impossible(lim: Limits, volume: Volume, calls: seq<Call>, probes: seq<Probe>)
    requires lim.Valid()
  {
    && |calls| > 0 && calls[0].QueryCall?
    && (calls[0].topology.Some? ==>
          var first := calls[0].topology.value;
          || !Admits(volume, first.highestEnd, first.totalBytes)
          || RejectedByDevice(lim, calls[1..], probes)
          || BadTable(calls[1..], first.highestEnd)
          || Misstated(calls[1..]))
  }

  /** A refused file operation, a refused hashing call, or a raised cancellation flag. */
  ghost predicate Refused(fs: FileSystem, fsFaults: nat, hashRefuses: nat -> bool, cancelled: CancelFlag)
    reads fs, cancelled
  {
    fs.Faults() > fsFaults || (exists k :: hashRefuses(k)) || cancelled.Seen()
  }

  /** No file operation and no hashing call is ever refused, and the user never cancels. */
  ghost predicate Untroubled(fs: FileSystem, hashRefuses: nat -> bool, cancelled: CancelFlag) {
    forall k :: !fs.refuses(k) && !hashRefuses(k) && !cancelled.raised(k)
  }

  lemma {:induction false} UntroubledIsNotRefused(fs: FileSystem, fsFaults: nat, hashRefuses: nat -> bool,
                                                  cancelled: CancelFlag)
    requires Untroubled(fs, hashRefuses, cancelled)
    ensures !Refused(fs, fsFaults, hashRefuses, cancelled)
  {
    if fs.Faults() > fsFaults {
      HappenedSometime(fs.refuses, fs.clock);
    }
    if cancelled.Seen() {
      HappenedSometime(cancelled.raised, cancelled.polls);
    }
  }

  lemma {:induction false} UnbalancedIsMisstated(lim: Limits, calls: seq<Call>, summary: AcquisitionSummary,
                                                 probes: seq<Probe>)
    requires lim.Valid() && Summarizes(lim, calls, summary, probes) && !Balanced(summary)
    ensures Misstated(calls)
  {
    FinishedConserves(lim, summary.ranges, probes);
  }

  /** Query, hasher, preflight, acquisition, and the accounting check. */
  method StageImage(codec: Codec, fs: FileSystem, volume: Volume, device: Device, cancelled: CancelFlag,
                    lim: Limits, rateLimitMBps: u32, hashRefuses: nat -> bool,
                    paths: EvidencePaths, ghost base: Disk)
    returns (failure: Option<EvidenceCaptureStatus>, summary: AcquisitionSummary, ghost first: Topology,
             ghost probes: seq<Probe>, ghost image: seq<byte>)
    requires lim.Valid() && IsPowerOfTwo(lim.page) && device.Genuine()
    requires fs.Valid() && fs.files == base && paths.Distinct() && Untouched(paths, base)
    modifies fs, device, cancelled
    ensures fs.Valid() && fs.handles.Keys == old(fs.handles).Keys
    ensures device.Genuine() && old(device.log) <= device.log
    ensures failure.None? ==>
              && fs.files == base[paths.rawPartial := image]
              && Acquired(lim, codec.digest, device.log[|old(device.log)|..], first, summary, probes, image)
              && summary.acquiredBytes + summary.unreadableBytes == summary.physicalBytes
    ensures failure.Some? ==> failure == Some(Failed) || (failure == Some(Cancelled) && cancelled.Seen())
    ensures failure.Some? ==> || Refused(fs, old(fs.Faults()), hashRefuses, cancelled)
                              || Impossible(lim, volume, device.log[|old(device.log)|..], probes)
    ensures failure.Some? && fs.DeletesWork() ==> fs.files == base
    ensures fs.Faults() >= old(fs.Faults())
    ensures old(fs.history) <= fs.history && AllQuiet(paths, base, fs.history, |old(fs.history)|)
  {
    summary, probes, image, first := EMPTY_SUMMARY, [], [], Topology(0, 0, []);
    var topology := device.Query();
    if topology.None? {
      return Some(Failed), summary, first, probes, image;
    }
    first := topology.value;
    ghost var queried := device.log;
    var hasher := new Sha256(codec.digest, hashRefuses);
    var ok := hasher.Initialize();
    if !ok {
      HappenedSometime(hashRefuses, hasher.clock);
      return Some(Failed), summary, first, probes, image;
    }
    failure, summary, probes, image :=
      PreflightAndFill(codec, fs, volume, hasher, device, cancelled, lim, rateLimitMBps, topology.value, paths, base);
    ghost var calls := device.log[|old(device.log)|..];
    assert calls[0] == queried[|old(device.log)|] == QueryCall(Some(first));
    assert calls[1..] == device.log[|queried|..];
    if hasher.Faults() > 0 {
      HappenedSometime(hashRefuses, hasher.clock);
    }
    if failure.None? && !Balanced(summary) {
      UnbalancedIsMisstated(lim, calls[1..], summary, probes);
      DropImage(fs, paths, base, old(fs.history));
      failure := Some(Failed);
    }
  }

  predicate Balanced(summary: AcquisitionSummary) {
    && summary.acquiredBytes <= U64_MAX - summary.unreadableBytes
    && summary.acquiredBytes + summary.unreadableBytes == summary.physicalBytes
  }

  /** The two sidecars, staged next to the staged image. */
  method StageSidecars(codec: Codec, fs: FileSystem, paths: EvidencePaths, fileName: Option<string>,
                       summary: AcquisitionSummary, ghost base: Disk, ghost image: seq<byte>)
    returns (ok: bool)
    requires fs.Valid() && paths.Distinct() && Untouched(paths, base) && fs.handles.Keys !! paths.All()
    requires fs.files == base[paths.rawPartial := image] && SpansFit(summary.unreadable)
    modifies fs
    ensures fs.Valid() && fs.handles.Keys == old(fs.handles).Keys
    ensures !ok ==> fs.Faults() > old(fs.Faults()) || !Writable(summary) || !Nameable(fileName)
    ensures fs.Faults() >= old(fs.Faults())
    ensures ok ==> Writable(summary) && fileName.Some?
                   && fs.files == StagedDisk(paths, base, image, codec.utf8(codec.render(MapOf(summary))),
                                             codec.utf8(SidecarText(summary.sha256, fileName.value)))
    ensures !ok && fs.DeletesWork() ==> fs.files == base
    ensures old(fs.history) <= fs.history && AllQuiet(paths, base, fs.history, |old(fs.history)|)
  {
    assert fs.files - paths.All() == base;
    ghost var none := fs.files;
    ok := WriteMapJson(codec, fs, paths.mapPartial, summary);
    TouchedStaysQuiet(paths, base, paths.mapPartial, none, fs.history, |old(fs.history)|);
    HoldingAfterTouch(paths, base, paths.mapPartial, none, fs.files, {paths.rawPartial});
    if ok {
      ghost var one, mapped := fs.files, fs.history;
      ok := WriteSha256Sidecar(codec, fs, paths.hashPartial, fileName, summary.sha256);
      TouchedStaysQuiet(paths, base, paths.hashPartial, one, fs.history, |mapped|);
      HoldingAfterTouch(paths, base, paths.hashPartial, one, fs.files, {paths.rawPartial, paths.mapPartial});
      QuietJoined(paths, base, mapped, fs.history, |old(fs.history)|);
    }
    if !ok {
      ghost var tried := fs.history;
      RemoveStagingFiles(fs, paths, base, paths.Staging());
      if fs.DeletesWork() {
        assert paths.Staging() - paths.Staging() == {};
        HoldingNothing(paths, base, fs.files);
      }
      QuietJoined(paths, base, tried, fs.history, |old(fs.history)|);
    }
  }

  // ---- the transaction ----

  /** The capture ended with a published bundle. */
  predicate Ended(status: EvidenceCaptureStatus) {
    status.Complete? || status.Incomplete?
  }

  /** A capture that ended well: what was acquired is what was published, and the status says how complete. */
  ghost predicate FinalizedAt(lim: Limits, codec: Codec, paths: EvidencePaths, fileName: string, base: Disk, disk: Disk,
                              calls: seq<Call>, status: EvidenceCaptureStatus, first: Topology,
                              summary: AcquisitionSummary, probes: seq<Probe>, image: seq<byte>)
    requires lim.Valid()
  {
    && Untouched(paths, base)
    && Acquired(lim, codec.digest, calls, first, summary, probes, image)
    && SpansFit(summary.unreadable) && Writable(summary)
    && disk == PublishedDisk(paths, base, image, codec.utf8(codec.render(MapOf(summary))),
                             codec.utf8(SidecarText(summary.sha256, fileName)))
    && status == if summary.topologyChanged || summary.unreadableBytes != 0 then Incomplete else Complete
  }

  ghost predicate Finalized(lim: Limits, codec: Codec, outputPath: string, base: Disk, disk: Disk, calls: seq<Call>,
                            status: EvidenceCaptureStatus, first: Topology, summary: AcquisitionSummary,
                            probes: seq<Probe>, image: seq<byte>)
    requires lim.Valid()
  {
    FinalizedAt(lim, codec, BuildEvidencePaths(outputPath), FileName(outputPath), base, disk, calls, status, first,
                summary, probes, image)
  }

  lemma {:induction false} AcquiredSpansFit(lim: Limits, digest: seq<byte> -> Digest, calls: seq<Call>,
                                            first: Topology, summary: AcquisitionSummary, probes: seq<Probe>,
                                            image: seq<byte>)
    requires lim.Valid() && Acquired(lim, digest, calls, first, summary, probes, image)
    ensures SpansFit(summary.unreadable)
  {
    SegmentsFit(lim, summary.ranges, probes);
    CoalesceFits(Replay(lim, summary.ranges, probes).segments, U64_MAX);
  }

  lemma {:induction false} AcquiredIsWritable(lim: Limits, digest: seq<byte> -> Digest, calls: seq<Call>,
                                              first: Topology, summary: AcquisitionSummary, probes: seq<Probe>,
                                              image: seq<byte>)
    requires lim.Valid() && Acquired(lim, digest, calls, first, summary, probes, image) && Balanced(summary)
    ensures Writable(summary)
  {
    DigestEncodesToSha256Hex(digest(ImageOf(History(lim, summary, probes), summary.logicalSize)));
  }

  /** The name the sidecar is to hold; the conversion of the wide name may fail. */
  function NarrowName(nameConvertible: bool, outputPath: string): Option<string> {
    if nameConvertible then Some(FileName(outputPath)) else None
  }

  predicate HasAnyCollision(paths: EvidencePaths, disk: Disk) {
    || paths.rawFinal in disk || paths.rawPartial in disk
    || paths.mapFinal in disk || paths.mapPartial in disk
    || paths.hashFinal in disk || paths.hashPartial in disk
  }

  /** All of the staging: the image, then its sidecars. */
  method Stage(codec: Codec, fs: FileSystem, volume: Volume, device: Device, cancelled: CancelFlag,
               lim: Limits, rateLimitMBps: u32, hashRefuses: nat -> bool, nameConvertible: bool,
               outputPath: string, paths: EvidencePaths, ghost base: Disk)
    returns (failure: Option<EvidenceCaptureStatus>, summary: AcquisitionSummary, ghost first: Topology,
             ghost probes: seq<Probe>, ghost image: seq<byte>)
    requires lim.Valid() && IsPowerOfTwo(lim.page) && device.Genuine()
    requires fs.Valid() && fs.files == base && paths.Distinct() && Untouched(paths, base)
    modifies fs, device, cancelled
    ensures fs.Valid() && fs.handles.Keys == old(fs.handles).Keys
    ensures device.Genuine() && old(device.log) <= device.log
    ensures failure.None? ==>
              && Acquired(lim, codec.digest, device.log[|old(device.log)|..], first, summary, probes, image)
              && SpansFit(summary.unreadable) && Writable(summary)
              && fs.files == StagedDisk(paths, base, image, codec.utf8(codec.render(MapOf(summary))),
                                        codec.utf8(SidecarText(summary.sha256, FileName(outputPath))))
    ensures failure.Some? ==> failure == Some(Failed) || (failure == Some(Cancelled) && cancelled.Seen())
    ensures failure.Some? ==> || Refused(fs, old(fs.Faults()), hashRefuses, cancelled)
                              || Impossible(lim, volume, device.log[|old(device.log)|..], probes)
                              || !Nameable(NarrowName(nameConvertible, outputPath))
    ensures failure.Some? && fs.DeletesWork() ==> fs.files == base
    ensures fs.Faults() >= old(fs.Faults())
    ensures old(fs.history) <= fs.history && AllQuiet(paths, base, fs.history, |old(fs.history)|)
  {
    failure, summary, first, probes, image :=
      StageImage(codec, fs, volume, device, cancelled, lim, rateLimitMBps, hashRefuses, paths, base);
    if failure.None? {
      ghost var staged := fs.history;
      AcquiredSpansFit(lim, codec.digest, device.log[|old(device.log)|..], first, summary, probes, image);
      AcquiredIsWritable(lim, codec.digest, device.log[|old(device.log)|..], first, summary, probes, image);
      var ok := StageSidecars(codec, fs, paths, NarrowName(nameConvertible, outputPath), summary, base, image);
      QuietJoined(paths, base, staged, fs.history, |old(fs.history)|);
      failure := if ok then None else Some(Failed);
    }
  }

  /** The staging, and when it succeeds the publication. */
  method StageAndPublish(codec: Codec, fs: FileSystem, volume: Volume, device: Device, cancelled: CancelFlag,
                         lim: Limits, rateLimitMBps: u32, hashRefuses: nat -> bool, nameConvertible: bool,
                         outputPath: string, paths: EvidencePaths, ghost base: Disk)
    returns (failure: Option<EvidenceCaptureStatus>, summary: AcquisitionSummary, ghost first: Topology,
             ghost probes: seq<Probe>, ghost image: seq<byte>)
    requires lim.Valid() && IsPowerOfTwo(lim.page) && device.Genuine()
    requires fs.Valid() && fs.files == base && paths.Distinct() && Untouched(paths, base)
    modifies fs, device, cancelled
    ensures fs.Valid() && fs.handles.Keys == old(fs.handles).Keys
    ensures device.Genuine() && old(device.log) <= device.log
    ensures failure.None? ==>
              && Acquired(lim, codec.digest, device.log[|old(device.log)|..], first, summary, probes, image)
              && SpansFit(summary.unreadable) && Writable(summary)
              && fs.files == PublishedDisk(paths, base, image, codec.utf8(codec.render(MapOf(summary))),
                                           codec.utf8(SidecarText(summary.sha256, FileName(outputPath))))
    ensures failure.Some? ==> failure == Some(Failed) || (failure == Some(Cancelled) && cancelled.Seen())
    ensures failure.Some? ==> || Refused(fs, old(fs.Faults()), hashRefuses, cancelled)
                              || Impossible(lim, volume, device.log[|old(device.log)|..], probes)
                              || !Nameable(NarrowName(nameConvertible, outputPath))
    ensures failure.Some? && fs.DeletesWork() ==> fs.files == base
    ensures fs.Faults() >= old(fs.Faults())
    ensures old(fs.history) <= fs.history && |fs.history| > 0
    ensures AllQuiet(paths, base, Unpublished(fs.history, failure.None?), |old(fs.history)|)
  {
    failure, summary, first, probes, image :=
      Stage(codec, fs, volume, device, cancelled, lim, rateLimitMBps, hashRefuses, nameConvertible, outputPath,
            paths, base);
    if failure.None? {
      ghost var staged := fs.history;
      var ok := Publish(fs, paths, base, image, codec.utf8(codec.render(MapOf(summary))),
                        codec.utf8(SidecarText(summary.sha256, FileName(outputPath))));
      PublicationQuiet(paths, base, staged, fs.history, |old(fs.history)|, ok);
      failure := if ok then None else Some(Failed);
    }
  }

  /** Quiet staging followed by a publication that is quiet up to its last step. */
  lemma {:induction false} PublicationQuiet(paths: EvidencePaths, base: Disk, staged: seq<Disk>, history: seq<Disk>,
                                            from: nat, published: bool)
    requires from <= |staged| < |history| && staged <= history
    requires AllQuiet(paths, base, staged, from)
    requires AllQuiet(paths, base, Unpublished(history, published), |staged|)
    ensures AllQuiet(paths, base, Unpublished(history, published), from)
  {
    QuietJoined(paths, base, staged, Unpublished(history, published), from);
  }

  /** The transaction on six paths of which none is taken. */
  method CaptureTo(codec: Codec, fs: FileSystem, volume: Volume, device: Device, outputPath: string,
                   cancelled: CancelFlag, lim: Limits, rateLimitMBps: u32, hashRefuses: nat -> bool,
                   nameConvertible: bool, paths: EvidencePaths, ghost base: Disk)
    returns (status: EvidenceCaptureStatus, summary: AcquisitionSummary, ghost first: Topology,
             ghost probes: seq<Probe>, ghost image: seq<byte>)
    requires lim.Valid() && IsPowerOfTwo(lim.page) && device.Genuine()
    requires fs.Valid() && fs.files == base && paths.Distinct() && Untouched(paths, base)
    modifies fs, device, cancelled
    ensures fs.Valid() && fs.handles.Keys == old(fs.handles).Keys
    ensures device.Genuine() && old(device.log) <= device.log
    ensures Ended(status) ==>
              FinalizedAt(lim, codec, paths, FileName(outputPath), base, fs.files,
                          device.log[|old(device.log)|..], status, first, summary, probes, image)
    ensures !Ended(status) ==> status.Failed? || (status.Cancelled? && cancelled.Seen())
    ensures || Ended(status) || Refused(fs, old(fs.Faults()), hashRefuses, cancelled)
            || Impossible(lim, volume, device.log[|old(device.log)|..], probes)
            || !Nameable(NarrowName(nameConvertible, outputPath))
    ensures !Ended(status) && fs.DeletesWork() ==> fs.files == base
    ensures old(fs.history) <= fs.history
    ensures AllQuiet(paths, base, Unpublished(fs.history, Ended(status)), |old(fs.history)|)
    ensures ImageOnlyPublished(paths, fs.history, |old(fs.history)|, Ended(status), fs.files)
  {
    var failure;
    failure, summary, first, probes, image :=
      StageAndPublish(codec, fs, volume, device, cancelled, lim, rateLimitMBps, hashRefuses, nameConvertible,
                      outputPath, paths, base);
    QuietThenPublished(paths, base, fs.history, |old(fs.history)|, failure.None?, fs.files);
    status := if failure.Some? then failure.value
              else if summary.topologyChanged || summary.unreadableBytes != 0 then Incomplete else Complete;
  }

  lemma {:induction false} NothingTaken(paths: EvidencePaths, disk: Disk)
    requires !HasAnyCollision(paths, disk)
    ensures Untouched(paths, disk)
  {
  }

  /** The path names a file whose name can be written down, and none of the six files is there. */
  predicate FreePath(nameConvertible: bool, outputPath: string, disk: Disk) {
    && outputPath != "" && outputPath != "-"
    && Nameable(NarrowName(nameConvertible, outputPath))
    && !HasAnyCollision(BuildEvidencePaths(outputPath), disk)
  }

  /**
   All or nothing.  A capture that is finalized has added exactly the three files of the bundle; one
   that failed or was cancelled has left the disk as it was, if closed files can be deleted.  No state
   the disk went through altered any other file, and the image carried its final name only in the
   very last state of a finalized capture.  A capture is finalized unless something was refused or the
   flag was raised, the device's answers rule it out, or the path was no good.
   */
  method CaptureEvidenceToFile(codec: Codec, fs: FileSystem, volume: Volume, device: Device, outputPath: string,
                               format: OutputFormat, cancelled: CancelFlag, lim: Limits, rateLimitMBps: u32,
                               hashRefuses: nat -> bool, nameConvertible: bool)
    returns (status: EvidenceCaptureStatus, summary: AcquisitionSummary, ghost first: Topology,
             ghost probes: seq<Probe>, ghost image: seq<byte>)
    requires lim.Valid() && IsPowerOfTwo(lim.page) && device.Genuine()
    requires fs.Valid() && SelectFormat(format, outputPath) == Raw
    modifies fs, device, cancelled
    ensures fs.Valid() && fs.handles.Keys == old(fs.handles).Keys
    ensures device.Genuine() && old(device.log) <= device.log
    ensures Ended(status) ==>
              Finalized(lim, codec, outputPath, old(fs.files), fs.files, device.log[|old(device.log)|..],
                        status, first, summary, probes, image)
    ensures status.Cancelled? ==> cancelled.Seen()
    ensures || Ended(status) || Refused(fs, old(fs.Faults()), hashRefuses, cancelled)
            || Impossible(lim, volume, device.log[|old(device.log)|..], probes)
            || !FreePath(nameConvertible, outputPath, old(fs.files))
    ensures !Ended(status) && fs.DeletesWork() ==> fs.files == old(fs.files)
    ensures old(fs.history) <= fs.history
    ensures AllQuiet(BuildEvidencePaths(outputPath), old(fs.files), Unpublished(fs.history, Ended(status)),
                     |old(fs.history)|)
    ensures ImageOnlyPublished(BuildEvidencePaths(outputPath), fs.history, |old(fs.history)|, Ended(status), fs.files)
  {
    summary, probes, image, first := EMPTY_SUMMARY, [], [], Topology(0, 0, []);
    if outputPath == "" || outputPath == "-" {
      return Failed, summary, first, probes, image;
    }
    var paths := BuildEvidencePaths(outputPath);
    PathsDistinct(outputPath);
    if HasAnyCollision(paths, fs.files) {
      return Failed, summary, first, probes, image;
    }
    NothingTaken(paths, fs.files);
    status, summary, first, probes, image :=
      CaptureTo(codec, fs, volume, device, outputPath, cancelled, lim, rateLimitMBps, hashRefuses, nameConvertible,
                paths, fs.files);
  }
}
