/** The flat image: file offset is physical address, and what is never written reads as zeros. */
module RawWriters {
  import opened Words
  import opened Files

  const DISK_HEADROOM_BYTES: u64 := 64 * 1024 * 1024
  const WRITE_CHUNK_BYTES: nat := 16 * 1024 * 1024
  const MAX_FAT_FILE_BYTES: u64 := 0xFFFF_FFFF
  const I64_MAX: int := 0x7FFF_FFFF_FFFF_FFFF

  /** What the volume queries answer, if they answer. */
  datatype Volume = Volume(resolved: bool, described: bool, sparse: bool, fat: bool, freeBytes: Option<u64>)

  /** Whether the checks before file creation let an image of this size through. */
  predicate Admits(volume: Volume, logicalSize: u64, expectedPhysicalBytes: u64) {
    && 0 < logicalSize <= I64_MAX
    && expectedPhysicalBytes <= logicalSize
    && volume.resolved && volume.described
    && !(volume.fat && logicalSize > MAX_FAT_FILE_BYTES)
    && volume.freeBytes.Some?
    && (if volume.sparse then expectedPhysicalBytes else logicalSize) + DISK_HEADROOM_BYTES <= volume.freeBytes.value
  }

  /** Writing some of the next chunk behind what was written is writing that much more at once. */
  lemma {:induction false} SpliceGrows(file: seq<byte>, offset: nat, data: seq<byte>,
                                       total: nat, requested: nat, written: nat)
    requires total + requested <= |data| && written <= requested
    ensures Splice(Splice(file, offset, data[..total]), offset + total, data[total..total + requested][..written])
         == Splice(file, offset, data[..total + written])
  {
    assert data[total..total + requested][..written] == data[total..total + written];
    assert data[..total] + data[total..total + written] == data[..total + written];
    SpliceTwice(file, offset, data[..total], data[total..total + written]);
  }

  lemma {:induction false} SizedFromEmpty(disk: Disk, path: string, size: nat)
    ensures disk[path := []][path := Resized([], size)] == disk[path := Zeros(size)]
  {
  }

  class RawWriter {
    const fs: FileSystem
    var path: string
    var isOpen: bool
    var logicalSize: u64
    var sparse: bool

    constructor (fs: FileSystem)
      ensures this.fs == fs && !isOpen
    {
      this.fs := fs;
      path, isOpen, logicalSize, sparse := "", false, 0, false;
    }

    ghost predicate Valid()
      reads this, fs
    {
      fs.Valid() && (isOpen ==> path in fs.handles && |fs.files[path]| == logicalSize)
    }

    /** The staged image. */
    ghost function Image(): seq<byte>
      requires Valid() && isOpen
      reads this, fs
    {
      fs.files[path]
    }

    /**
     Closes what was open, then opens a new file of the given size.  On any failure the partial file it
     created is gone again, if closed files can be deleted.
     */
    method PreflightAndOpen(partialPath: string, size: u64, expectedPhysicalBytes: u64, volume: Volume)
      returns (ok: bool)
      requires Valid()
      modifies this, fs
      ensures Valid() && isOpen == ok
      ensures ok ==> path == partialPath && logicalSize == size && Admits(volume, size, expectedPhysicalBytes)
      ensures ok ==> partialPath !in old(fs.files) && fs.files == old(fs.files)[partialPath := Zeros(size)]
      ensures fs.handles.Keys == (if old(isOpen) then old(fs.handles).Keys - {old(path)} else old(fs.handles).Keys)
                                 + (if ok then {partialPath} else {})
      ensures !ok && (fs.DeletesWork() || partialPath in old(fs.files)) ==> fs.files == old(fs.files)
      ensures old(fs.history) <= fs.history
      ensures TouchedOnly(partialPath, old(fs.files), fs.history, |old(fs.history)|)
      ensures fs.Faults() >= old(fs.Faults())
      ensures !ok ==> !Admits(volume, size, expectedPhysicalBytes) || |partialPath| == 0
                      || partialPath in old(fs.files) || fs.Faults() > old(fs.Faults())
    {
      Close();
      ok := OpenNew(partialPath, size, expectedPhysicalBytes, volume);
    }

    /** The checks of the arguments and of the volume, and the file. */
    method OpenNew(partialPath: string, size: u64, expectedPhysicalBytes: u64, volume: Volume)
      returns (ok: bool)
      requires Valid() && !isOpen
      modifies this, fs
      ensures Valid() && isOpen == ok
      ensures ok ==> path == partialPath && logicalSize == size && Admits(volume, size, expectedPhysicalBytes)
      ensures ok ==> partialPath !in old(fs.files) && fs.files == old(fs.files)[partialPath := Zeros(size)]
      ensures fs.handles.Keys == old(fs.handles).Keys + (if ok then {partialPath} else {})
      ensures !ok && (fs.DeletesWork() || partialPath in old(fs.files)) ==> fs.files == old(fs.files)
      ensures old(fs.history) <= fs.history
      ensures TouchedOnly(partialPath, old(fs.files), fs.history, |old(fs.history)|)
      ensures fs.Faults() >= old(fs.Faults())
      ensures !ok ==> !Admits(volume, size, expectedPhysicalBytes) || |partialPath| == 0
                      || partialPath in old(fs.files) || fs.Faults() > old(fs.Faults())
    {
      if |partialPath| == 0 || size == 0 || size > I64_MAX || expectedPhysicalBytes > size {
        return false;
      }
      if !volume.resolved || !volume.described {
        return false;
      }
      if volume.fat && size > MAX_FAT_FILE_BYTES {
        return false;
      }
      var payload := if volume.sparse then expectedPhysicalBytes else size;
      if payload > U64_MAX - DISK_HEADROOM_BYTES || volume.freeBytes.None? {
        return false;
      }
      if volume.freeBytes.value < payload + DISK_HEADROOM_BYTES {
        return false;
      }
      ok := fs.CreateNew(partialPath);
      if ok {
        ok := SizeNewFile(partialPath, size, volume.sparse, old(fs.files));
      }
    }

    /** Marks the new file sparse where the volume can, and gives it its logical size. */
    method SizeNewFile(partialPath: string, size: u64, supportsSparse: bool, ghost before: Disk) returns (ok: bool)
      requires Valid() && !isOpen && partialPath !in before && partialPath in fs.handles
      requires fs.files == before[partialPath := []]
      modifies this, fs
      ensures Valid() && isOpen == ok
      ensures ok ==> path == partialPath && logicalSize == size
      ensures ok ==> fs.files == before[partialPath := Zeros(size)] && fs.handles.Keys == old(fs.handles).Keys
      ensures !ok ==> fs.handles.Keys == old(fs.handles).Keys - {partialPath}
      ensures !ok && fs.DeletesWork() ==> fs.files == before
      ensures old(fs.history) <= fs.history
      ensures TouchedOnly(partialPath, before, fs.history, |old(fs.history)|)
      ensures fs.Faults() >= old(fs.Faults())
      ensures !ok ==> fs.Faults() > old(fs.Faults())
    {
      ok := TrySizing(partialPath, size, supportsSparse, before);
      if ok {
        path, isOpen, logicalSize := partialPath, true, size;
      } else {
        Discard(partialPath, before);
      }
    }

    method TrySizing(partialPath: string, size: u64, supportsSparse: bool, ghost before: Disk) returns (ok: bool)
      requires fs.Valid() && partialPath in fs.handles
      requires fs.files == before[partialPath := []]
      modifies this`sparse, fs
      ensures fs.Valid()
      ensures fs.files == before[partialPath := if ok then Zeros(size) else []]
      ensures fs.handles.Keys == old(fs.handles).Keys
      ensures old(fs.history) <= fs.history
      ensures TouchedOnly(partialPath, before, fs.history, |old(fs.history)|)
      ensures fs.Faults() >= old(fs.Faults())
      ensures !ok ==> fs.Faults() > old(fs.Faults())
    {
      ok := PointAtEnd(partialPath, size, supportsSparse);
      WithoutUpdated(before, partialPath, []);
      SizedFromEmpty(before, partialPath, size);
      if ok {
        ok := fs.SetEndOfFile(partialPath);
      }
    }

    /** Marks the file sparse where the volume supports it, and moves the file pointer to the end it shall have. */
    method PointAtEnd(partialPath: string, size: u64, supportsSparse: bool) returns (ok: bool)
      requires fs.Valid() && partialPath in fs.handles
      modifies this`sparse, fs`handles, fs`clock
      ensures fs.Valid() && fs.handles.Keys == old(fs.handles).Keys
      ensures ok ==> fs.handles[partialPath] == size
      ensures fs.Faults() >= old(fs.Faults())
      ensures !ok ==> fs.Faults() > old(fs.Faults())
    {
      ok := true;
      if supportsSparse {
        ok := fs.Control(partialPath);
        sparse := ok;
      }
      if ok {
        ok := fs.Seek(partialPath, size);
      }
    }

    /** Closes and deletes a file of our own making. */
    method Discard(partialPath: string, ghost before: Disk)
      requires Valid() && !isOpen && partialPath !in before
      requires fs.files == before[partialPath := []]
      modifies this, fs
      ensures Valid() && !isOpen
      ensures fs.handles.Keys == old(fs.handles).Keys - {partialPath}
      ensures fs.DeletesWork() ==> fs.files == before
      ensures old(fs.history) <= fs.history
      ensures TouchedOnly(partialPath, before, fs.history, |old(fs.history)|)
      ensures fs.Faults() >= old(fs.Faults())
    {
      logicalSize, sparse := 0, false;
      fs.CloseHandle(partialPath);
      fs.Delete(partialPath);
      WithoutUpdated(before, partialPath, []);
      assert Without(fs.files, partialPath) == fs.files || fs.files == old(fs.files);
    }

    method WriteAt(offset: u64, data: seq<byte>) returns (ok: bool)
      requires Valid()
      modifies fs
      ensures Valid()
      ensures ok ==> isOpen && offset + |data| <= logicalSize && Image() == Splice(old(fs.files)[path], offset, data)
      ensures !ok ==> !isOpen || offset + |data| > logicalSize || fs.Faults() > old(fs.Faults())
      ensures fs.handles.Keys == old(fs.handles).Keys
      ensures Without(fs.files, path) == Without(old(fs.files), path)
      ensures old(fs.history) <= fs.history
      ensures TouchedOnly(path, old(fs.files), fs.history, |old(fs.history)|)
      ensures fs.Faults() >= old(fs.Faults())
    {
      if !isOpen {
        return false;
      }
      if offset > logicalSize || |data| > logicalSize - offset {
        return false;
      }
      ok := fs.Seek(path, offset);
      if ok {
        ok := WriteAll(offset, data);
      }
    }

    /** Writes at the file pointer until everything is taken. */
    method WriteAll(ghost offset: nat, data: seq<byte>) returns (ok: bool)
      requires Valid() && isOpen && fs.handles[path] == offset && offset + |data| <= logicalSize
      modifies fs
      ensures Valid()
      ensures ok ==> Image() == Splice(old(fs.files)[path], offset, data)
      ensures !ok ==> fs.Faults() > old(fs.Faults())
      ensures fs.handles.Keys == old(fs.handles).Keys
      ensures Without(fs.files, path) == Without(old(fs.files), path)
      ensures old(fs.history) <= fs.history
      ensures TouchedOnly(path, old(fs.files), fs.history, |old(fs.history)|)
      ensures fs.Faults() >= old(fs.Faults())
    {
      ghost var before := fs.files[path];
      var total := 0;
      SpliceNothing(before, offset);
      while total < |data|
        invariant Valid() && total <= |data|
        invariant fs.handles[path] == offset + total
        invariant Image() == Splice(before, offset, data[..total])
        invariant fs.handles.Keys == old(fs.handles).Keys
        invariant Without(fs.files, path) == Without(old(fs.files), path)
        invariant old(fs.history) <= fs.history
        invariant TouchedOnly(path, old(fs.files), fs.history, |old(fs.history)|)
        invariant fs.Faults() >= old(fs.Faults())
      {
        var written := WriteSome(before, offset, data, total);
        if written == 0 {
          return false;
        }
        total := total + written;
      }
      assert data[..total] == data;
      return true;
    }

    /** One request for the next chunk; nothing written is a failure. */
    method WriteSome(ghost before: seq<byte>, ghost offset: nat, data: seq<byte>, total: nat) returns (written: nat)
      requires Valid() && isOpen && total < |data| && offset + |data| <= logicalSize
      requires fs.handles[path] == offset + total && Image() == Splice(before, offset, data[..total])
      modifies fs
      ensures Valid() && written <= |data| - total
      ensures written > 0 ==> fs.handles[path] == offset + total + written
                              && Image() == Splice(before, offset, data[..total + written])
      ensures written == 0 ==> fs.Faults() > old(fs.Faults())
      ensures fs.handles.Keys == old(fs.handles).Keys
      ensures Without(fs.files, path) == Without(old(fs.files), path)
      ensures fs.history == old(fs.history) + [fs.files] && fs.Faults() >= old(fs.Faults())
    {
      var requested := Min(|data| - total, WRITE_CHUNK_BYTES);
      var accepted, taken := fs.Write(path, data[total..total + requested]);
      written := if accepted then taken else 0;
      SpliceGrows(before, offset, data, total, requested, written);
    }

    method FlushAndClose() returns (ok: bool)
      requires Valid()
      modifies this, fs
      ensures Valid() && !isOpen
      ensures ok ==> old(isOpen)
      ensures fs.files == old(fs.files) && fs.history == old(fs.history)
      ensures fs.handles.Keys == if old(isOpen) then old(fs.handles).Keys - {old(path)} else old(fs.handles).Keys
      ensures !ok ==> !old(isOpen) || fs.Faults() > old(fs.Faults())
      ensures fs.Faults() >= old(fs.Faults())
    {
      if !isOpen {
        return false;
      }
      ok := fs.Control(path);
      fs.CloseHandle(path);
      isOpen, logicalSize := false, 0;
    }

    method Close()
      requires Valid()
      modifies this, fs`handles
      ensures Valid() && !isOpen
      ensures fs.handles.Keys == if old(isOpen) then old(fs.handles).Keys - {old(path)} else old(fs.handles).Keys
    {
      if isOpen {
        fs.CloseHandle(path);
      }
      isOpen, logicalSize, sparse := false, 0, false;
    }
  }
}
