/**
 The six paths of an evidence transaction, what the disk may look like while it runs, cleanup, and
 the publication of the staged files.
 */
module EvidenceFiles {
  import opened Words
  import opened Files

  datatype EvidencePaths = EvidencePaths(
    rawFinal: string, rawPartial: string, mapFinal: string, mapPartial: string, hashFinal: string, hashPartial: string)
  {
    function Staging(): set<string> {
      {rawPartial, mapPartial, hashPartial}
    }

    function Sidecars(): set<string> {
      {mapFinal, hashFinal}
    }

    function All(): set<string> {
      Staging() + Sidecars() + {rawFinal}
    }

    /** Six different names, none of them empty. */
    ghost predicate Distinct() {
      && rawPartial != ""
      && rawFinal !in Staging() + Sidecars()
      && Staging() !! Sidecars()
      && rawPartial != mapPartial && rawPartial != hashPartial && mapPartial != hashPartial
      && mapFinal != hashFinal
    }
  }

  function BuildEvidencePaths(outputPath: string): EvidencePaths {
    EvidencePaths(outputPath, outputPath + ".partial",
                  outputPath + ".map.json", outputPath + ".map.json.partial",
                  outputPath + ".sha256", outputPath + ".sha256.partial")
  }

  /** No two of the six paths are the same file. */
  lemma {:induction false} PathsDistinct(outputPath: string)
    ensures BuildEvidencePaths(outputPath).Distinct()
  {
    var p := BuildEvidencePaths(outputPath);
    var n := |outputPath|;
    assert |p.rawPartial| == n + 8 && |p.mapFinal| == n + 9 && |p.mapPartial| == n + 17;
    assert |p.hashFinal| == n + 7 && |p.hashPartial| == n + 15;
  }

  // ---- disks during a transaction ----

  /** Nothing but the six paths differs from `base`, and the image has not been published. */
  ghost predicate Quiet(paths: EvidencePaths, base: Disk, disk: Disk) {
    disk - paths.All() == base && paths.rawFinal !in disk
  }

  /** Every state the disk has been in since `from` was quiet. */
  ghost predicate AllQuiet(paths: EvidencePaths, base: Disk, history: seq<Disk>, from: nat) {
    forall k :: from <= k < |history| ==> Quiet(paths, base, history[k])
  }

  /** Quiet, and of the six paths only these may be there. */
  ghost predicate Holding(paths: EvidencePaths, base: Disk, disk: Disk, present: set<string>) {
    Quiet(paths, base, disk) && disk.Keys * paths.All() <= present
  }

  lemma {:induction false} TouchingStagingIsQuiet(paths: EvidencePaths, base: Disk, path: string, before: Disk, after: Disk)
    requires paths.Distinct() && path in paths.Staging() + paths.Sidecars()
    requires Quiet(paths, base, before) && Without(after, path) == Without(before, path)
    ensures Quiet(paths, base, after)
  {
    assert after - paths.All() == Without(after, path) - paths.All();
    assert before - paths.All() == Without(before, path) - paths.All();
    assert paths.rawFinal in after ==> paths.rawFinal in Without(after, path);
  }

  lemma {:induction false} TouchedStaysQuiet(paths: EvidencePaths, base: Disk, path: string, before: Disk,
                                             history: seq<Disk>, from: nat)
    requires paths.Distinct() && path in paths.Staging() + paths.Sidecars()
    requires Quiet(paths, base, before) && TouchedOnly(path, before, history, from)
    ensures AllQuiet(paths, base, history, from)
  {
    forall k | from <= k < |history|
      ensures Quiet(paths, base, history[k])
    {
      TouchingStagingIsQuiet(paths, base, path, before, history[k]);
    }
  }

  lemma {:induction false} HoldingAfterTouch(paths: EvidencePaths, base: Disk, path: string, before: Disk, after: Disk,
                                             present: set<string>)
    requires paths.Distinct() && path in paths.Staging() + paths.Sidecars()
    requires Holding(paths, base, before, present) && Without(after, path) == Without(before, path)
    ensures Holding(paths, base, after, present + {path})
    ensures path !in after ==> Holding(paths, base, after, present - {path})
  {
    TouchingStagingIsQuiet(paths, base, path, before, after);
    forall p | p in after.Keys * paths.All()
      ensures p == path || p in present
    {
      if p != path {
        assert p in Without(after, path);
        assert p in Without(before, path);
      }
    }
  }

  lemma {:induction false} RemovingAbsentKeys(disk: Disk, keys: set<string>)
    requires disk.Keys * keys <= {}
    ensures disk - keys == disk
  {
    forall p | p in disk
      ensures p in disk - keys
    {
      assert p in keys ==> p in disk.Keys * keys;
    }
  }

  /** A transaction that holds nothing has left no trace. */
  lemma {:induction false} HoldingNothing(paths: EvidencePaths, base: Disk, disk: Disk)
    requires Holding(paths, base, disk, {})
    ensures disk == base
  {
    RemovingAbsentKeys(disk, paths.All());
  }

  lemma {:induction false} QuietJoined(paths: EvidencePaths, base: Disk, first: seq<Disk>, second: seq<Disk>, from: nat)
    requires from <= |first| && first <= second
    requires AllQuiet(paths, base, first, from) && AllQuiet(paths, base, second, |first|)
    ensures AllQuiet(paths, base, second, from)
  {
    forall k | from <= k < |second|
      ensures Quiet(paths, base, second[k])
    {
      if k < |first| {
        assert second[k] == first[k];
      }
    }
  }

  /**
   In every state since `from` in which the image carries its final name, the transaction had published:
   the state is the final one.
   */
  ghost predicate ImageOnlyPublished(paths: EvidencePaths, history: seq<Disk>, from: nat, published: bool, final: Disk) {
    forall k :: from <= k < |history| && paths.rawFinal in history[k] ==> published && history[k] == final
  }

  /** The states a transaction went through, without the last one if that published the image. */
  ghost function Unpublished(history: seq<Disk>, published: bool): seq<Disk> {
    if published && |history| > 0 then history[..|history| - 1] else history
  }

  lemma {:induction false} QuietThenPublished(paths: EvidencePaths, base: Disk, history: seq<Disk>, from: nat,
                                              published: bool, final: Disk)
    requires |history| > 0 && history[|history| - 1] == final
    requires AllQuiet(paths, base, Unpublished(history, published), from)
    ensures ImageOnlyPublished(paths, history, from, published, final)
  {
    var quiet := Unpublished(history, published);
    forall k | from <= k < |history|
      ensures paths.rawFinal in history[k] ==> published && history[k] == final
    {
      if k < |quiet| {
        assert Quiet(paths, base, quiet[k]);
      }
    }
  }

  // ---- cleanup ----

  /** Deletes one of our files if it is there; `present` says which may still be. */
  method DeleteIfPresent(fs: FileSystem, paths: EvidencePaths, path: string, ghost base: Disk, ghost present: set<string>)
    requires fs.Valid() && paths.Distinct() && path in paths.Staging() + paths.Sidecars()
    requires fs.handles.Keys !! paths.All()
    requires Holding(paths, base, fs.files, present)
    modifies fs
    ensures fs.Valid() && fs.handles == old(fs.handles) && fs.Faults() == old(fs.Faults())
    ensures Holding(paths, base, fs.files, if fs.DeletesWork() then present - {path} else present)
    ensures old(fs.history) <= fs.history && AllQuiet(paths, base, fs.history, |old(fs.history)|)
  {
    fs.Delete(path);
    HoldingAfterTouch(paths, base, path, old(fs.files), fs.files, present);
  }

  method RemoveStagingFiles(fs: FileSystem, paths: EvidencePaths, ghost base: Disk, ghost present: set<string>)
    requires fs.Valid() && paths.Distinct() && fs.handles.Keys !! paths.All()
    requires Holding(paths, base, fs.files, present)
    modifies fs
    ensures fs.Valid() && fs.handles == old(fs.handles) && fs.Faults() == old(fs.Faults())
    ensures Holding(paths, base, fs.files, if fs.DeletesWork() then present - paths.Staging() else present)
    ensures old(fs.history) <= fs.history && AllQuiet(paths, base, fs.history, |old(fs.history)|)
  {
    DeleteIfPresent(fs, paths, paths.rawPartial, base, present);
    DeleteIfPresent(fs, paths, paths.mapPartial, base,
                    if fs.DeletesWork() then present - {paths.rawPartial} else present);
    DeleteIfPresent(fs, paths, paths.hashPartial, base,
                    if fs.DeletesWork() then present - {paths.rawPartial, paths.mapPartial} else present);
    assert present - {paths.rawPartial, paths.mapPartial} - {paths.hashPartial} == present - paths.Staging();
  }

  method RemoveFinalizedSidecars(fs: FileSystem, paths: EvidencePaths, ghost base: Disk, ghost present: set<string>)
    requires fs.Valid() && paths.Distinct() && fs.handles.Keys !! paths.All()
    requires Holding(paths, base, fs.files, present)
    modifies fs
    ensures fs.Valid() && fs.handles == old(fs.handles) && fs.Faults() == old(fs.Faults())
    ensures Holding(paths, base, fs.files, if fs.DeletesWork() then present - paths.Sidecars() else present)
    ensures old(fs.history) <= fs.history && AllQuiet(paths, base, fs.history, |old(fs.history)|)
  {
    DeleteIfPresent(fs, paths, paths.mapFinal, base, present);
    DeleteIfPresent(fs, paths, paths.hashFinal, base,
                    if fs.DeletesWork() then present - {paths.mapFinal} else present);
    assert present - {paths.mapFinal} - {paths.hashFinal} == present - paths.Sidecars();
  }

  // ---- publication ----

  /** The staged bundle: the three partial files with their contents, and nothing else of ours. */
  function StagedDisk(paths: EvidencePaths, base: Disk, raw: seq<byte>, doc: seq<byte>, hash: seq<byte>): Disk {
    base[paths.rawPartial := raw][paths.mapPartial := doc][paths.hashPartial := hash]
  }

  /** The published bundle: exactly three more files. */
  function PublishedDisk(paths: EvidencePaths, base: Disk, raw: seq<byte>, doc: seq<byte>, hash: seq<byte>): Disk {
    base[paths.rawFinal := raw][paths.mapFinal := doc][paths.hashFinal := hash]
  }

  ghost predicate Untouched(paths: EvidencePaths, base: Disk) {
    base.Keys !! paths.All()
  }

  lemma {:induction false} StagedIsHeld(paths: EvidencePaths, base: Disk, raw: seq<byte>, doc: seq<byte>, hash: seq<byte>)
    requires paths.Distinct() && Untouched(paths, base)
    ensures Holding(paths, base, StagedDisk(paths, base, raw, doc, hash), paths.Staging())
  {
    assert StagedDisk(paths, base, raw, doc, hash) - paths.All() == base;
  }

  /** Promoting a sidecar keeps the disk quiet. */
  lemma {:induction false} PromotionHolds(paths: EvidencePaths, base: Disk, before: Disk, source: string, target: string,
                                          after: Disk, present: set<string>)
    requires paths.Distinct() && Holding(paths, base, before, present)
    requires source in paths.Staging() && target in paths.Sidecars() && source in before
    requires after == (before - {source})[target := before[source]]
    ensures Holding(paths, base, after, present - {source} + {target})
  {
    assert after - paths.All() == before - paths.All();
  }

  /**
   Publishes the map, then the hash, then the image.  Until the last step has been taken no state of
   the disk has the image under its final name; a failed step is taken back.
   */
  method Publish(fs: FileSystem, paths: EvidencePaths, ghost base: Disk,
                 ghost raw: seq<byte>, ghost doc: seq<byte>, ghost hash: seq<byte>)
    returns (ok: bool)
    requires fs.Valid() && paths.Distinct() && Untouched(paths, base) && fs.handles.Keys !! paths.All()
    requires fs.files == StagedDisk(paths, base, raw, doc, hash)
    modifies fs
    ensures fs.Valid() && fs.handles == old(fs.handles)
    ensures ok ==> fs.files == PublishedDisk(paths, base, raw, doc, hash)
    ensures !ok && fs.DeletesWork() ==> fs.files == base
    ensures fs.Faults() >= old(fs.Faults()) && (!ok ==> fs.Faults() > old(fs.Faults()))
    ensures old(fs.history) <= fs.history && |fs.history| > |old(fs.history)|
    ensures AllQuiet(paths, base, Unpublished(fs.history, ok), |old(fs.history)|)
  {
    StagedIsHeld(paths, base, raw, doc, hash);
    ok := PublishSidecars(fs, paths, base, raw, doc, hash);
    if !ok {
      return;
    }
    ghost var sidecars := fs.files;
    ghost var sidecarHistory := fs.history;
    ok := fs.Move(paths.rawPartial, paths.rawFinal);
    if ok {
      assert fs.history[..|fs.history| - 1] == sidecarHistory;
    } else {
      ghost var tried := fs.history;
      TakeBack(fs, paths, base, paths.Sidecars() + {paths.rawPartial});
      QuietJoined(paths, base, tried, fs.history, |old(fs.history)|);
    }
  }

  /** The disk with both sidecars published and the image still staged. */
  function SidecarDisk(paths: EvidencePaths, base: Disk, raw: seq<byte>, doc: seq<byte>, hash: seq<byte>): Disk {
    base[paths.rawPartial := raw][paths.mapFinal := doc][paths.hashFinal := hash]
  }

  method PublishSidecars(fs: FileSystem, paths: EvidencePaths, ghost base: Disk,
                         ghost raw: seq<byte>, ghost doc: seq<byte>, ghost hash: seq<byte>)
    returns (ok: bool)
    requires fs.Valid() && paths.Distinct() && Untouched(paths, base) && fs.handles.Keys !! paths.All()
    requires fs.files == StagedDisk(paths, base, raw, doc, hash) && Holding(paths, base, fs.files, paths.Staging())
    modifies fs
    ensures fs.Valid() && fs.handles == old(fs.handles)
    ensures ok ==> fs.files == SidecarDisk(paths, base, raw, doc, hash)
                   && Holding(paths, base, fs.files, paths.Sidecars() + {paths.rawPartial})
    ensures !ok && fs.DeletesWork() ==> fs.files == base
    ensures fs.Faults() >= old(fs.Faults()) && (!ok ==> fs.Faults() > old(fs.Faults()))
    ensures old(fs.history) <= fs.history && |fs.history| > |old(fs.history)|
    ensures AllQuiet(paths, base, fs.history, |old(fs.history)|)
  {
    ghost var before := fs.files;
    ok := fs.Move(paths.mapPartial, paths.mapFinal);
    if !ok {
      ghost var tried := fs.history;
      RemoveStagingFiles(fs, paths, base, paths.Staging());
      if fs.DeletesWork() {
        assert paths.Staging() - paths.Staging() == {};
        HoldingNothing(paths, base, fs.files);
      }
      QuietJoined(paths, base, tried, fs.history, |old(fs.history)|);
      return;
    }
    PromotionHolds(paths, base, before, paths.mapPartial, paths.mapFinal, fs.files, paths.Staging());
    ghost var promoted := {paths.rawPartial, paths.hashPartial, paths.mapFinal};
    assert paths.Staging() - {paths.mapPartial} + {paths.mapFinal} == promoted;
    ghost var one := fs.files;
    ok := fs.Move(paths.hashPartial, paths.hashFinal);
    ghost var tried := fs.history;
    if ok {
      PromotionHolds(paths, base, one, paths.hashPartial, paths.hashFinal, fs.files, promoted);
      assert promoted - {paths.hashPartial} + {paths.hashFinal} == paths.Sidecars() + {paths.rawPartial};
    } else {
      TakeBack(fs, paths, base, promoted);
      QuietJoined(paths, base, tried, fs.history, |old(fs.history)|);
    }
  }

  /** Removes the staging files and the sidecars already published. */
  method TakeBack(fs: FileSystem, paths: EvidencePaths, ghost base: Disk, ghost present: set<string>)
    requires fs.Valid() && paths.Distinct() && fs.handles.Keys !! paths.All()
    requires Holding(paths, base, fs.files, present) && present <= paths.Staging() + paths.Sidecars()
    modifies fs
    ensures fs.Valid() && fs.handles == old(fs.handles) && fs.Faults() == old(fs.Faults())
    ensures fs.DeletesWork() ==> fs.files == base
    ensures old(fs.history) <= fs.history && AllQuiet(paths, base, fs.history, |old(fs.history)|)
  {
    RemoveStagingFiles(fs, paths, base, present);
    ghost var unstaged := fs.history;
    RemoveFinalizedSidecars(fs, paths, base, if fs.DeletesWork() then present - paths.Staging() else present);
    if fs.DeletesWork() {
      assert present - paths.Staging() - paths.Sidecars() == {};
      HoldingNothing(paths, base, fs.files);
    }
    QuietJoined(paths, base, unstaged, fs.history, |old(fs.history)|);
  }
}
