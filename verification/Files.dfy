/**
 The file system under the evidence transaction: exclusive handles with a file pointer, and
 operations the system may refuse at any time.
 */
module Files {
  import opened Words

  type Disk = map<string, seq<byte>>

  /** Overwrites from `pos` on; a gap between the end of the file and `pos` reads as zeros. */
  function Splice(file: seq<byte>, pos: nat, data: seq<byte>): (r: seq<byte>)
    ensures |r| == Max(|file|, pos + |data|)
    ensures forall i :: 0 <= i < |r| ==>
              r[i] == if pos <= i < pos + |data| then data[i - pos] else if i < |file| then file[i] else 0
  {
    var front := if pos <= |file| then file[..pos] else file + Zeros(pos - |file|);
    var back := if pos + |data| < |file| then file[pos + |data|..] else [];
    front + data + back
  }

  /** Two adjacent writes are one write. */
  lemma {:induction false} SpliceTwice(file: seq<byte>, pos: nat, first: seq<byte>, second: seq<byte>)
    ensures Splice(Splice(file, pos, first), pos + |first|, second) == Splice(file, pos, first + second)
  {
  }

  lemma {:induction false} SpliceNothing(file: seq<byte>, pos: nat)
    requires pos <= |file|
    ensures Splice(file, pos, []) == file
  {
  }

  /** Truncated, or extended with zeros. */
  function Resized(file: seq<byte>, size: nat): (r: seq<byte>)
    ensures |r| == size
    ensures |file| == 0 ==> r == Zeros(size)
  {
    if size <= |file| then file[..size] else file + Zeros(size - |file|)
  }

  /** The disk apart from one file. */
  ghost function Without(disk: Disk, path: string): Disk {
    disk - {path}
  }

  lemma {:induction false} WithoutUpdated(disk: Disk, path: string, bytes: seq<byte>)
    ensures Without(disk[path := bytes], path) == Without(disk, path)
    ensures path !in disk ==> Without(disk[path := bytes], path) == disk
  {
  }

  /** From `from` on, every recorded state of the disk agrees with `base` except at `path`. */
  ghost predicate TouchedOnly(path: string, base: Disk, history: seq<Disk>, from: nat) {
    forall k :: from <= k < |history| ==> Without(history[k], path) == Without(base, path)
  }

  class FileSystem {
    var files: Disk
    /** Files held open with share mode 0, each with its file pointer. */
    var handles: map<string, nat>
    /** Every state the disk has been in. */
    ghost var history: seq<Disk>
    var clock: nat
    var deletions: nat
    /** Which operations the system refuses for no reason of ours, which deletions of closed files. */
    const refuses: nat -> bool
    const refusesDelete: nat -> bool
    /** How much of a write request the system takes. */
    const takes: (nat, nat) -> nat

    constructor (files: Disk, refuses: nat -> bool, refusesDelete: nat -> bool, takes: (nat, nat) -> nat)
      ensures Valid() && this.files == files && handles == map[] && history == [files]
    {
      this.files := files;
      this.handles := map[];
      this.history := [files];
      this.clock, this.deletions := 0, 0;
      this.refuses, this.refusesDelete, this.takes := refuses, refusesDelete, takes;
    }

    ghost predicate Valid()
      reads this
    {
      && handles.Keys <= files.Keys
      && |history| > 0
      && history[|history| - 1] == files
    }

    /** Operations refused so far. */
    ghost function Faults(): nat
      reads this`clock
    {
      Times(refuses, clock)
    }

    /** The system takes every write whole. */
    ghost predicate TakesAll() {
      forall k, n :: takes(k, n) >= n
    }

    /** An operation was refused since, or the system cuts writes short. */
    ghost predicate Failing(faults: nat)
      reads this`clock
    {
      Faults() > faults || !TakesAll()
    }

    /** Whether the system refuses the next operation. */
    method Refused() returns (refused: bool)
      modifies this`clock
      ensures Faults() == old(Faults()) + (if refused then 1 else 0)
    {
      refused := refuses(clock);
      clock := clock + 1;
    }

    /** CREATE_NEW: fails when the name is taken. */
    method CreateNew(path: string) returns (ok: bool)
      requires Valid()
      modifies this
      ensures Valid()
      ensures ok ==> path !in old(files) && files == old(files)[path := []] && handles == old(handles)[path := 0]
      ensures !ok ==> files == old(files) && handles == old(handles)
      ensures !ok ==> path in old(files) || Faults() > old(Faults())
      ensures Faults() >= old(Faults())
      ensures Without(files, path) == Without(old(files), path)
      ensures history == old(history) + [files]
    {
      var refused := Refused();
      ok := !refused && path !in files;
      if ok {
        files := files[path := []];
        handles := handles[path := 0];
      }
      history := history + [files];
    }

    /** CREATE_ALWAYS: an existing file that nobody holds open is emptied. */
    method CreateAlways(path: string) returns (ok: bool)
      requires Valid()
      modifies this
      ensures Valid()
      ensures ok ==> path !in old(handles) && files == old(files)[path := []] && handles == old(handles)[path := 0]
      ensures !ok ==> files == old(files) && handles == old(handles)
      ensures !ok ==> path in old(handles) || Faults() > old(Faults())
      ensures Faults() >= old(Faults())
      ensures Without(files, path) == Without(old(files), path)
      ensures history == old(history) + [files]
    {
      var refused := Refused();
      ok := !refused && path !in handles;
      if ok {
        files := files[path := []];
        handles := handles[path := 0];
      }
      history := history + [files];
    }

    method Seek(path: string, pos: nat) returns (ok: bool)
      requires Valid() && path in handles
      modifies this`handles, this`clock
      ensures Valid()
      ensures handles == if ok then old(handles)[path := pos] else old(handles)
      ensures !ok ==> Faults() > old(Faults())
      ensures Faults() >= old(Faults())
    {
      var refused := Refused();
      ok := !refused;
      if ok {
        handles := handles[path := pos];
      }
    }

    /** Takes some prefix of the data; when it is refused it fails or takes nothing. */
    method Write(path: string, data: seq<byte>) returns (ok: bool, written: nat)
      requires Valid() && path in handles && |data| > 0
      modifies this
      ensures Valid()
      ensures written <= |data|
      ensures ok && written > 0 ==>
                && files == old(files)[path := Splice(old(files)[path], old(handles)[path], data[..written])]
                && handles == old(handles)[path := old(handles)[path] + written]
      ensures !ok || written == 0 ==> files == old(files) && handles == old(handles) && Faults() > old(Faults())
      ensures ok && 0 < written < |data| ==> !TakesAll()
      ensures Faults() >= old(Faults())
      ensures Without(files, path) == Without(old(files), path)
      ensures history == old(history) + [files]
    {
      var wanted := takes(clock, |data|);
      var refused := Refused();
      ok := !refused || wanted == 0;
      written := if refused then 0 else Max(1, Min(wanted, |data|));
      if ok && written > 0 {
        files := files[path := Splice(files[path], handles[path], data[..written])];
        handles := handles[path := handles[path] + written];
      }
      history := history + [files];
    }

    /** Moves the end of the file to the file pointer; new bytes read as zeros. */
    method SetEndOfFile(path: string) returns (ok: bool)
      requires Valid() && path in handles
      modifies this
      ensures Valid() && handles == old(handles)
      ensures ok ==> var end := old(handles)[path]; var was := old(files)[path];
                     files == old(files)[path := Resized(was, end)]
      ensures !ok ==> files == old(files) && Faults() > old(Faults())
      ensures Faults() >= old(Faults())
      ensures Without(files, path) == Without(old(files), path)
      ensures history == old(history) + [files]
    {
      var refused := Refused();
      ok := !refused;
      if ok {
        var end := handles[path];
        var was := files[path];
        files := files[path := Resized(was, end)];
      }
      history := history + [files];
    }

    /** An operation on an open file that leaves its contents alone, such as flushing it. */
    method Control(path: string) returns (ok: bool)
      requires Valid() && path in handles
      modifies this`clock
      ensures Valid()
      ensures !ok ==> Faults() > old(Faults())
      ensures Faults() >= old(Faults())
    {
      var refused := Refused();
      ok := !refused;
    }

    method CloseHandle(path: string)
      requires Valid()
      modifies this`handles
      ensures Valid() && handles == old(handles) - {path}
    {
      handles := handles - {path};
    }

    /** Deleting a file that is open, or absent, fails. */
    method Delete(path: string)
      requires Valid()
      modifies this
      ensures Valid() && handles == old(handles)
      ensures files == old(files) || (path !in handles && files == old(files) - {path})
      ensures DeletesWork() && path !in handles ==> files == old(files) - {path}
      ensures Faults() == old(Faults())
      ensures Without(files, path) == Without(old(files), path)
      ensures history == old(history) + [files]
    {
      var refused := refusesDelete(deletions);
      deletions := deletions + 1;
      if !refused && path !in handles {
        files := files - {path};
      }
      history := history + [files];
    }

    /** Renames a closed file to a name that is not taken. */
    method Move(source: string, target: string) returns (ok: bool)
      requires Valid()
      modifies this
      ensures Valid() && handles == old(handles)
      ensures ok ==> source in old(files) && target !in old(files) && source !in handles
      ensures ok ==> files == (old(files) - {source})[target := old(files)[source]]
      ensures !ok ==> files == old(files)
      ensures !ok ==> source !in old(files) || target in old(files) || source in handles || Faults() > old(Faults())
      ensures Faults() >= old(Faults())
      ensures history == old(history) + [files]
    {
      var refused := Refused();
      ok := !refused && source in files && target !in files && source !in handles;
      if ok {
        files := (files - {source})[target := files[source]];
      }
      history := history + [files];
    }

    /** The system never refuses to delete a closed file. */
    ghost predicate DeletesWork() {
      forall k :: !refusesDelete(k)
    }
  }
}
