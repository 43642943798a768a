/**
 The Expert Witness container: 64 KiB chunks with checksums between chained sections, the header of
 the section that holds the chunks being completed last.
 */
module E01 {
  import opened Words
  import opened Files
  import opened Adler

  const CHUNK: nat := 65536
  const MAX_DWORD: nat := 0xFFFF_FFFF
  const SECTION_HEADER: nat := 76
  const STORED_CHUNK: nat := 65540
  const FILE_HEADER: seq<byte> := [0x45, 0x56, 0x46, 0x09, 0x0D, 0x0A, 0xFF, 0x00, 0x01, 1, 0, 0, 0]

  // ---- little-endian fields ----

  function LittleEndian(n: nat, width: nat): (bytes: seq<byte>)
    ensures |bytes| == width
  {
    if width == 0 then [] else [n % 256] + LittleEndian(n / 256, width - 1)
  }

  function FromLittleEndian(bytes: seq<byte>): nat {
    if |bytes| == 0 then 0 else bytes[0] + 256 * FromLittleEndian(bytes[1..])
  }

  function Values(width: nat): nat {
    if width == 0 then 1 else 256 * Values(width - 1)
  }

  lemma {:induction false} LittleEndianRoundTrip(n: nat, width: nat)
    requires n < Values(width)
    ensures FromLittleEndian(LittleEndian(n, width)) == n
  {
    if width > 0 {
      LittleEndianRoundTrip(n / 256, width - 1);
      assert LittleEndian(n, width)[1..] == LittleEndian(n / 256, width - 1);
    }
  }

  lemma {:induction false} EightBytesHold(n: u64)
    ensures n < Values(8)
  {
    assert Values(4) == 256 * Values(3) == 256 * 256 * Values(2) == 0x1_0000_0000;
    assert Values(8) == 256 * Values(7) == 256 * 256 * Values(6) == 0x1_000000 * Values(5);
  }

  // ---- sections ----

  function Ascii(s: string): seq<byte> {
    seq(|s|, i requires 0 <= i < |s| => s[i] as int % 256)
  }

  /** Byte `i` of a section header before its checksum: type, next offset and size (both 64 bits wide), zeros. */
  function FieldByte(kind: string, next: nat, size: nat, i: nat): byte
    requires |kind| <= 16
  {
    if i < |kind| then kind[i] as int % 256
    else if 16 <= i < 24 then LittleEndian(next, 8)[i - 16]
    else if 24 <= i < 32 then LittleEndian(size, 8)[i - 24]
    else 0
  }

  function Fields(kind: string, next: nat, size: nat): (fields: seq<byte>)
    requires |kind| <= 16
    ensures |fields| == 72
  {
    seq(72, i requires 0 <= i < 72 => FieldByte(kind, next, size, i))
  }

  function SectionHeader(kind: string, next: nat, size: nat): (header: seq<byte>)
    requires |kind| <= 16
    ensures |header| == SECTION_HEADER
  {
    Fields(kind, next, size) + LittleEndian(Adler32(Fields(kind, next, size)), 4)
  }

  /** A section that begins at `start` and is followed by the next one. */
  function Section(kind: string, start: nat, payload: seq<byte>): (section: seq<byte>)
    requires |kind| <= 16
    ensures |section| == SECTION_HEADER + |payload|
  {
    SectionHeader(kind, start + SECTION_HEADER + |payload|, SECTION_HEADER + |payload|) + payload
  }

  /** Data followed by its checksum. */
  function Checked(data: seq<byte>): (bytes: seq<byte>)
    ensures |bytes| == |data| + 4
  {
    data + LittleEndian(Adler32(data), 4)
  }

  // ---- chunks ----

  predicate Whole(bytes: seq<byte>) {
    |bytes| % CHUNK == 0
  }

  /** Zero-padded to a whole number of chunks. */
  function Padded(stream: seq<byte>): (padded: seq<byte>)
    ensures Whole(padded) && stream <= padded && |padded| < |stream| + CHUNK
  {
    var rest := |stream| % CHUNK;
    if rest == 0 then stream else
      PaddingCompletes(|stream|);
      stream + Zeros(CHUNK - rest)
  }

  lemma {:induction false} PaddingCompletes(n: nat)
    requires n % CHUNK != 0
    ensures (n + (CHUNK - n % CHUNK)) % CHUNK == 0
  {
  }

  /** The first `n` chunks, each with its checksum. */
  function StoredChunks(bytes: seq<byte>, n: nat): (stored: seq<byte>)
    requires CHUNK * n <= |bytes|
    ensures |stored| == STORED_CHUNK * n
  {
    if n == 0 then [] else StoredChunks(bytes, n - 1) + Checked(bytes[CHUNK * (n - 1)..CHUNK * n])
  }

  lemma {:induction false} StoredChunksExtend(bytes: seq<byte>, more: seq<byte>, n: nat)
    requires CHUNK * n <= |bytes| && bytes <= more
    ensures StoredChunks(more, n) == StoredChunks(bytes, n)
  {
    if n > 0 {
      StoredChunksExtend(bytes, more, n - 1);
      assert more[CHUNK * (n - 1)..CHUNK * n] == bytes[CHUNK * (n - 1)..CHUNK * n];
    }
  }

  /** The offset the writer notes for chunk `i`, relative to the section that holds it. */
  function TableEntry(i: nat): u32 {
    (SECTION_HEADER + STORED_CHUNK * i) % 0x1_0000_0000
  }

  function TableEntries(n: nat): (entries: seq<u32>)
    ensures |entries| == n
  {
    seq(n, i requires 0 <= i < n => TableEntry(i))
  }

  function TableBytes(entries: seq<u32>): (bytes: seq<byte>)
    ensures |bytes| == 4 * |entries|
  {
    if |entries| == 0 then [] else TableBytes(entries[..|entries| - 1]) + LittleEndian(entries[|entries| - 1], 4)
  }

  // ---- the container ----

  function Front(meta: seq<byte>, volume: seq<byte>): (front: seq<byte>)
    ensures |front| == 13 + 80 + |meta| + 80 + |volume|
  {
    FILE_HEADER + Section("header", 13, Checked(meta)) + Section("volume", 93 + |meta|, Checked(volume))
  }

  function TableSection(start: nat, n: nat): (section: seq<byte>)
    ensures |section| == 80 + 4 * n
  {
    Section("table", start, Checked(TableBytes(TableEntries(n))))
  }

  /** No hash is known, so its data are zeros. */
  function HashSection(start: nat): (section: seq<byte>)
    ensures |section| == 112
  {
    Section("hash", start, Zeros(36))
  }

  function TableAndHash(current: nat, n: nat): (sections: seq<byte>)
    ensures |sections| == 80 + 4 * n + 112
  {
    TableSection(current, n) + HashSection(current + 80 + 4 * n)
  }

  /** Table, hash and done sections, for a file of `current` bytes so far. */
  function Tail(current: nat, n: nat): (tail: seq<byte>)
    ensures |tail| == 80 + 4 * n + 112 + 76
  {
    TableAndHash(current, n) + SectionHeader("done", 0, SECTION_HEADER)
  }

  /** The size of the file up to the table. */
  function SizeWithChunks(front: seq<byte>, n: nat): nat {
    |front| + SECTION_HEADER + STORED_CHUNK * n
  }

  /** A container of `n` chunks has a 64-bit size. */
  predicate Fits(front: seq<byte>, n: nat) {
    SizeWithChunks(front, n) + 4 * n + 268 <= U64_MAX
  }

  /** The header of the section of the chunks once it has been completed. */
  function SectorsHeader(front: seq<byte>, n: nat): (header: seq<byte>)
    ensures |header| == SECTION_HEADER
  {
    SectionHeader("sectors", SizeWithChunks(front, n), SizeWithChunks(front, n) - |front|)
  }

  /** The file before the section of the chunks has been completed. */
  function Unfinished(front: seq<byte>, chunks: seq<byte>, n: nat): (file: seq<byte>)
    requires CHUNK * n <= |chunks|
    ensures |file| == SizeWithChunks(front, n)
  {
    front + SectionHeader("sectors", 0, SECTION_HEADER) + StoredChunks(chunks, n)
  }

  function Container(front: seq<byte>, chunks: seq<byte>, n: nat): (file: seq<byte>)
    requires CHUNK * n <= |chunks|
    ensures |file| == SizeWithChunks(front, n) + 4 * n + 268
  {
    front + SectorsHeader(front, n) + StoredChunks(chunks, n) + Tail(SizeWithChunks(front, n), n)
  }

  // ---- reading a container ----

  function FieldAt(file: seq<byte>, o: nat, width: nat): nat
    requires o + width <= |file|
  {
    FromLittleEndian(file[o..o + width])
  }

  function NextOffsetAt(file: seq<byte>, o: nat): nat
    requires o + SECTION_HEADER <= |file|
  {
    FieldAt(file, o + 16, 8)
  }

  function SizeAt(file: seq<byte>, o: nat): nat
    requires o + SECTION_HEADER <= |file|
  {
    FieldAt(file, o + 24, 8)
  }

  /** A well-formed section header of this kind at `o`, its checksum right. */
  ghost predicate HeaderAt(file: seq<byte>, o: nat, kind: string, next: nat, size: int)
    requires |kind| <= 16
  {
    && o + SECTION_HEADER <= |file|
    && file[o..o + 16] == Ascii(kind) + Zeros(16 - |kind|)
    && NextOffsetAt(file, o) == next && SizeAt(file, o) == size
    && FieldAt(file, o + 72, 4) == Adler32(file[o..o + 72])
  }

  lemma {:induction false} HeaderSlices(kind: string, next: u64, size: u64)
    requires |kind| <= 16
    ensures var h := SectionHeader(kind, next, size);
            && h[..16] == Ascii(kind) + Zeros(16 - |kind|)
            && h[16..24] == LittleEndian(next, 8)
            && h[24..32] == LittleEndian(size, 8)
            && h[..72] == Fields(kind, next, size)
            && h[72..76] == LittleEndian(Adler32(Fields(kind, next, size)), 4)
  {
    var h, fields := SectionHeader(kind, next, size), Fields(kind, next, size);
    assert h[..72] == fields;
    assert fields[..16] == Ascii(kind) + Zeros(16 - |kind|);
    assert fields[16..24] == LittleEndian(next, 8) && fields[24..32] == LittleEndian(size, 8);
    assert h[..16] == fields[..16] && h[16..24] == fields[16..24] && h[24..32] == fields[24..32];
  }

  lemma {:induction false} FourBytesHold(n: u32)
    ensures n < Values(4)
  {
    assert Values(4) == 256 * Values(3) == 256 * 256 * Values(2) == 0x1_0000_0000;
  }

  lemma {:induction false} SliceInside(file: seq<byte>, o: nat, part: seq<byte>, lo: nat, hi: nat)
    requires o + |part| <= |file| && file[o..o + |part|] == part && lo <= hi <= |part|
    ensures file[o + lo..o + hi] == part[lo..hi]
  {
    forall i | lo <= i < hi
      ensures file[o + i] == part[i]
    {
      assert file[o..o + |part|][i] == file[o + i];
    }
  }

  /** Where the bytes of a section header stand, a section header is read. */
  lemma {:induction false} HeaderReads(file: seq<byte>, o: nat, kind: string, next: u64, size: u64)
    requires |kind| <= 16 && o + SECTION_HEADER <= |file|
    requires file[o..o + SECTION_HEADER] == SectionHeader(kind, next, size)
    ensures HeaderAt(file, o, kind, next, size)
  {
    var h := SectionHeader(kind, next, size);
    HeaderSlices(kind, next, size);
    SliceInside(file, o, h, 0, 16);
    SliceInside(file, o, h, 16, 24);
    SliceInside(file, o, h, 24, 32);
    SliceInside(file, o, h, 0, 72);
    SliceInside(file, o, h, 72, 76);
    EightBytesHold(next);
    EightBytesHold(size);
    FourBytesHold(Adler32(Fields(kind, next, size)));
    LittleEndianRoundTrip(next, 8);
    LittleEndianRoundTrip(size, 8);
    LittleEndianRoundTrip(Adler32(Fields(kind, next, size)), 4);
  }

  /** A section in its place is followed by what its header names. */
  lemma {:induction false} SectionReads(file: seq<byte>, o: nat, kind: string, payload: seq<byte>)
    requires |kind| <= 16 && o + SECTION_HEADER + |payload| <= U64_MAX
    requires o + SECTION_HEADER + |payload| <= |file|
    requires file[o..o + SECTION_HEADER + |payload|] == Section(kind, o, payload)
    ensures HeaderAt(file, o, kind, o + SECTION_HEADER + |payload|, SECTION_HEADER + |payload|)
  {
    var next, size := o + SECTION_HEADER + |payload|, SECTION_HEADER + |payload|;
    SliceInside(file, o, Section(kind, o, payload), 0, SECTION_HEADER);
    HeaderReads(file, o, kind, next, size);
  }

  const KINDS: seq<string> := ["header", "volume", "sectors", "table", "hash", "done"]

  /** A section whose header names the next section and the distance to it. */
  ghost predicate LeadsTo(file: seq<byte>, o: nat, kind: string, next: nat)
    requires |kind| <= 16
  {
    o < next && HeaderAt(file, o, kind, next, next - o)
  }

  /**
   Sections of these kinds at these offsets, in order and up to the end of the file: each header names
   the offset of the next section and the distance to it, the last one names none.
   */
  ghost predicate Sections(file: seq<byte>, offsets: seq<nat>, kinds: seq<string>) {
    && |offsets| == |kinds| > 0 && |kinds[0]| <= 16
    && if |kinds| == 1 then
         HeaderAt(file, offsets[0], kinds[0], 0, SECTION_HEADER) && offsets[0] + SECTION_HEADER == |file|
       else
         LeadsTo(file, offsets[0], kinds[0], offsets[1]) && Sections(file, offsets[1..], kinds[1..])
  }

  lemma {:induction false} OneMoreSection(file: seq<byte>, o: nat, kind: string, offsets: seq<nat>, kinds: seq<string>)
    requires Sections(file, offsets, kinds) && |kind| <= 16 && LeadsTo(file, o, kind, offsets[0])
    ensures Sections(file, [o] + offsets, [kind] + kinds)
  {
    assert ([o] + offsets)[1..] == offsets && ([kind] + kinds)[1..] == kinds;
  }

  /** Following the next offsets, at most `fuel` sections. */
  function Follow(file: seq<byte>, o: nat, fuel: nat): seq<nat>
    decreases fuel
  {
    if fuel == 0 || o + SECTION_HEADER > |file| then []
    else if NextOffsetAt(file, o) == 0 then [o]
    else [o] + Follow(file, NextOffsetAt(file, o), fuel - 1)
  }

  lemma {:induction false} FollowVisits(file: seq<byte>, offsets: seq<nat>, kinds: seq<string>, fuel: nat)
    requires Sections(file, offsets, kinds) && |offsets| <= fuel
    ensures Follow(file, offsets[0], fuel) == offsets
    decreases fuel
  {
    if |offsets| > 1 {
      FollowVisits(file, offsets[1..], kinds[1..], fuel - 1);
      assert offsets == [offsets[0]] + offsets[1..];
    }
  }

  // ---- the container is well formed ----

  lemma {:induction false} MiddleOf(a: seq<byte>, b: seq<byte>, c: seq<byte>)
    ensures (a + b + c)[|a|..|a| + |b|] == b
  {
  }

  /** The offsets of the six sections. */
  function SectionOffsets(meta: seq<byte>, volume: seq<byte>, n: nat): seq<nat> {
    var second := 93 + |meta|;
    var third := second + 80 + |volume|;
    var fourth := third + SECTION_HEADER + STORED_CHUNK * n;
    var fifth := fourth + 80 + 4 * n;
    [13, second, third, fourth, fifth, fifth + 112]
  }

  /** A section between what is before it and what is after it. */
  lemma {:induction false} SectionInside(before: seq<byte>, kind: string, payload: seq<byte>, after: seq<byte>,
                                         file: seq<byte>, o: nat, next: nat)
    requires |kind| <= 16 && o == |before| && next == o + SECTION_HEADER + |payload| <= U64_MAX
    requires file == before + Section(kind, o, payload) + after
    ensures LeadsTo(file, o, kind, next)
  {
    MiddleOf(before, Section(kind, o, payload), after);
    SectionReads(file, o, kind, payload);
  }

  lemma {:induction false} FrontReads(meta: seq<byte>, volume: seq<byte>, file: seq<byte>, second: nat, third: nat)
    requires Front(meta, volume) <= file && |Front(meta, volume)| <= U64_MAX
    requires second == 93 + |meta| && third == second + 80 + |volume|
    ensures LeadsTo(file, 13, "header", second) && LeadsTo(file, second, "volume", third)
  {
    var header := Section("header", 13, Checked(meta));
    var volumeSection := Section("volume", second, Checked(volume));
    var rest := file[|Front(meta, volume)|..];
    assert file == FILE_HEADER + header + (volumeSection + rest);
    SectionInside(FILE_HEADER, "header", Checked(meta), volumeSection + rest, file, 13, second);
    assert file == (FILE_HEADER + header) + volumeSection + rest;
    SectionInside(FILE_HEADER + header, "volume", Checked(volume), rest, file, second, third);
  }

  lemma {:induction false} TailReads(before: seq<byte>, n: nat, file: seq<byte>, fourth: nat, fifth: nat, sixth: nat)
    requires fourth + 4 * n + 268 <= U64_MAX && fourth == |before| && file == before + Tail(fourth, n)
    requires fifth == fourth + 80 + 4 * n && sixth == fifth + 112
    ensures LeadsTo(file, fourth, "table", fifth) && LeadsTo(file, fifth, "hash", sixth)
    ensures HeaderAt(file, sixth, "done", 0, SECTION_HEADER) && sixth + SECTION_HEADER == |file|
  {
    var entries := Checked(TableBytes(TableEntries(n)));
    var table := Section("table", fourth, entries);
    var hash := Section("hash", fifth, Zeros(36));
    var done := SectionHeader("done", 0, SECTION_HEADER);
    ThreeParts(before, table, hash, done);
    SectionInside(before, "table", entries, hash + done, file, fourth, fifth);
    SectionInside(before + table, "hash", Zeros(36), done, file, fifth, sixth);
    MiddleOf(before + table + hash, done, []);
    HeaderReads(file, sixth, "done", 0, SECTION_HEADER);
  }

  lemma {:induction false} ThreeParts(before: seq<byte>, a: seq<byte>, b: seq<byte>, c: seq<byte>)
    ensures before + (a + b + c) == before + a + (b + c)
    ensures before + (a + b + c) == (before + a) + b + c
    ensures before + (a + b + c) == (before + a + b) + c + []
  {
  }

  lemma {:induction false} SectorsRead(front: seq<byte>, chunks: seq<byte>, n: nat)
    requires CHUNK * n <= |chunks| && Fits(front, n)
    ensures LeadsTo(Container(front, chunks, n), |front|, "sectors", SizeWithChunks(front, n))
  {
    var size := SizeWithChunks(front, n);
    var rest := StoredChunks(chunks, n) + Tail(size, n);
    Associates(front + SectorsHeader(front, n), StoredChunks(chunks, n), Tail(size, n));
    MiddleOf(front, SectorsHeader(front, n), rest);
    HeaderReads(Container(front, chunks, n), |front|, "sectors", size, size - |front|);
  }

  lemma {:induction false} ContainerStartsWith(front: seq<byte>, chunks: seq<byte>, n: nat)
    requires CHUNK * n <= |chunks|
    ensures front <= Container(front, chunks, n)
  {
  }

  /** The first three sections lead up to the table. */
  lemma {:induction false} ContainerFrontChains(meta: seq<byte>, volume: seq<byte>, chunks: seq<byte>, n: nat,
                                                second: nat, third: nat)
    requires CHUNK * n <= |chunks| && Fits(Front(meta, volume), n)
    requires second == 93 + |meta| && third == second + 80 + |volume|
    ensures var file, size := Container(Front(meta, volume), chunks, n), SizeWithChunks(Front(meta, volume), n);
            && LeadsTo(file, 13, "header", second) && LeadsTo(file, second, "volume", third)
            && LeadsTo(file, third, "sectors", size)
  {
    ContainerStartsWith(Front(meta, volume), chunks, n);
    FrontReads(meta, volume, Container(Front(meta, volume), chunks, n), second, third);
    SectorsRead(Front(meta, volume), chunks, n);
  }

  /** The last three sections lead up to the end. */
  lemma {:induction false} ContainerTailChains(front: seq<byte>, chunks: seq<byte>, n: nat, fifth: nat, sixth: nat)
    requires CHUNK * n <= |chunks| && Fits(front, n)
    requires fifth == SizeWithChunks(front, n) + 80 + 4 * n && sixth == fifth + 112
    ensures var file, size := Container(front, chunks, n), SizeWithChunks(front, n);
            && LeadsTo(file, size, "table", fifth) && LeadsTo(file, fifth, "hash", sixth)
            && HeaderAt(file, sixth, "done", 0, SECTION_HEADER) && sixth + SECTION_HEADER == |file|
  {
    TailReads(front + SectorsHeader(front, n) + StoredChunks(chunks, n), n, Container(front, chunks, n),
              SizeWithChunks(front, n), fifth, sixth);
  }

  lemma {:induction false} ContainerSections(meta: seq<byte>, volume: seq<byte>, chunks: seq<byte>, n: nat)
    requires CHUNK * n <= |chunks| && Fits(Front(meta, volume), n)
    ensures Sections(Container(Front(meta, volume), chunks, n), SectionOffsets(meta, volume, n), KINDS)
  {
    var at := SectionOffsets(meta, volume, n);
    ContainerFrontChains(meta, volume, chunks, n, at[1], at[2]);
    ContainerTailChains(Front(meta, volume), chunks, n, at[4], at[5]);
    SixSections(Container(Front(meta, volume), chunks, n), at);
  }

  /** Following the next offsets from byte 13 visits six sections that tile the file. */
  lemma {:induction false} ContainerChains(meta: seq<byte>, volume: seq<byte>, chunks: seq<byte>, n: nat)
    requires CHUNK * n <= |chunks| && Fits(Front(meta, volume), n)
    ensures var file := Container(Front(meta, volume), chunks, n);
            var offsets := SectionOffsets(meta, volume, n);
            Sections(file, offsets, KINDS) && Follow(file, 13, 6) == offsets
  {
    ContainerSections(meta, volume, chunks, n);
    FollowVisits(Container(Front(meta, volume), chunks, n), SectionOffsets(meta, volume, n), KINDS, 6);
  }

  lemma {:induction false} SixSections(file: seq<byte>, at: seq<nat>)
    requires |at| == 6 && at[5] + SECTION_HEADER == |file|
    requires LeadsTo(file, at[0], "header", at[1]) && LeadsTo(file, at[1], "volume", at[2])
    requires LeadsTo(file, at[2], "sectors", at[3]) && LeadsTo(file, at[3], "table", at[4])
    requires LeadsTo(file, at[4], "hash", at[5]) && HeaderAt(file, at[5], "done", 0, SECTION_HEADER)
    ensures Sections(file, at, KINDS)
  {
    OneMoreSection(file, at[4], "hash", [at[5]], ["done"]);
    OneMoreSection(file, at[3], "table", [at[4], at[5]], ["hash", "done"]);
    OneMoreSection(file, at[2], "sectors", [at[3], at[4], at[5]], ["table", "hash", "done"]);
    OneMoreSection(file, at[1], "volume", [at[2], at[3], at[4], at[5]], ["sectors", "table", "hash", "done"]);
    OneMoreSection(file, at[0], "header", [at[1], at[2], at[3], at[4], at[5]],
                   ["volume", "sectors", "table", "hash", "done"]);
    assert at == [at[0], at[1], at[2], at[3], at[4], at[5]];
  }

  // ---- the chunks are the stream ----

  lemma {:induction false} StoredChunkAt(chunks: seq<byte>, n: nat, i: nat)
    requires CHUNK * n <= |chunks| && i < n
    ensures StoredChunks(chunks, n)[STORED_CHUNK * i..STORED_CHUNK * (i + 1)]
         == Checked(chunks[CHUNK * i..CHUNK * (i + 1)])
  {
    var stored := StoredChunks(chunks, n);
    var init := StoredChunks(chunks, n - 1);
    if i < n - 1 {
      StoredChunkAt(chunks, n - 1, i);
      assert stored[STORED_CHUNK * i..STORED_CHUNK * (i + 1)] == init[STORED_CHUNK * i..STORED_CHUNK * (i + 1)];
    } else {
      assert stored[|init|..] == Checked(chunks[CHUNK * i..CHUNK * (i + 1)]);
    }
  }

  /** The whole table is exact up to 65532 chunks, which is four gigabytes less 256 KiB, and no further. */
  lemma {:induction false} TableExactIffSmall(n: nat)
    ensures (forall i :: 0 <= i < n ==> TableEntries(n)[i] == SECTION_HEADER + STORED_CHUNK * i) <==> n <= 65532
  {
    if n > 65532 {
      assert TableEntries(n)[65532] == TableEntry(65532);
    }
  }

  lemma {:induction false} SliceOfMiddle(file: seq<byte>, a: seq<byte>, b: seq<byte>, c: seq<byte>, lo: nat, hi: nat)
    requires file == a + b + c && lo <= hi <= |b|
    ensures |a| + hi <= |file| && file[|a| + lo..|a| + hi] == b[lo..hi]
  {
  }

  lemma {:induction false} EntryExact(i: nat)
    requires i <= 65531
    ensures TableEntry(i) == SECTION_HEADER + STORED_CHUNK * i
  {
  }

  /** Following the table of a container finds chunk `i` of the stream and its checksum. */
  lemma {:induction false} TableFindsChunk(front: seq<byte>, chunks: seq<byte>, n: nat, i: nat)
    requires CHUNK * n <= |chunks| && i < n && i <= 65531
    ensures var file := Container(front, chunks, n);
            var o := |front| + TableEntry(i);
            o + STORED_CHUNK <= |file| && file[o..o + STORED_CHUNK] == Checked(chunks[CHUNK * i..CHUNK * (i + 1)])
  {
    StoredChunkAt(chunks, n, i);
    var before, after := front + SectorsHeader(front, n), Tail(SizeWithChunks(front, n), n);
    var from, to := STORED_CHUNK * i, STORED_CHUNK * (i + 1);
    assert to <= STORED_CHUNK * n;
    SliceOfMiddle(Container(front, chunks, n), before, StoredChunks(chunks, n), after, from, to);
    EntryExact(i);
  }

  // ---- completing the container ----

  /**
   What closing leaves.  The section of the chunks is completed by a seek to its header, a write, and a
   seek back to the end; the writer does not look at what these three answer.  `sought` and `returned`
   tell whether the seeks were done, `taken` how much of the header was written.
   */
  function Closing(front: seq<byte>, chunks: seq<byte>, n: nat, sought: bool, taken: nat, returned: bool): seq<byte>
    requires CHUNK * n <= |chunks| && taken <= SECTION_HEADER
  {
    var size := SizeWithChunks(front, n);
    var at := if sought then |front| else size;
    PatchAndAppend(Unfinished(front, chunks, n), at, SectorsHeader(front, n)[..taken],
                   if returned then size else at + taken, Tail(size, n))
  }

  function PatchAndAppend(file: seq<byte>, at: nat, patch: seq<byte>, end: nat, tail: seq<byte>): seq<byte> {
    Splice(Splice(file, at, patch), end, tail)
  }

  lemma {:induction false} SpliceMiddle(a: seq<byte>, b: seq<byte>, c: seq<byte>, other: seq<byte>)
    requires |other| == |b|
    ensures Splice(a + b + c, |a|, other) == a + other + c
  {
  }

  lemma {:induction false} SpliceEnd(file: seq<byte>, data: seq<byte>)
    ensures Splice(file, |file|, data) == file + data
  {
  }

  lemma {:induction false} PatchThenTail(front: seq<byte>, old_: seq<byte>, new_: seq<byte>, stored: seq<byte>,
                                         at: nat, taken: nat, end: nat, tail: seq<byte>)
    requires |old_| == |new_| == taken && at == |front| && end == |front + old_ + stored|
    ensures PatchAndAppend(front + old_ + stored, at, new_[..taken], end, tail) == front + new_ + stored + tail
  {
    assert new_[..taken] == new_;
    SpliceMiddle(front, old_, stored, new_);
    SpliceEnd(front + new_ + stored, tail);
  }

  /** When the three steps are done, closing completes the container. */
  lemma {:induction false} ClosingCompletes(front: seq<byte>, chunks: seq<byte>, n: nat, returned: bool)
    requires CHUNK * n <= |chunks| && (returned || n == 0)
    ensures Closing(front, chunks, n, true, SECTION_HEADER, returned) == Container(front, chunks, n)
  {
    var size := SizeWithChunks(front, n);
    PatchThenTail(front, SectionHeader("sectors", 0, SECTION_HEADER), SectorsHeader(front, n), StoredChunks(chunks, n),
                  |front|, SECTION_HEADER, if returned then size else |front| + SECTION_HEADER, Tail(size, n));
  }

  /** Where a piece of a file is known, so is the piece after a write elsewhere. */
  lemma {:induction false} SpliceKeepsBefore(file: seq<byte>, lo: nat, hi: nat, pos: nat, data: seq<byte>)
    requires lo <= hi <= pos && hi <= |file|
    ensures Splice(file, pos, data)[lo..hi] == file[lo..hi]
  {
  }

  lemma {:induction false} PatchElsewhere(file: seq<byte>, lo: nat, hi: nat, at: nat, patch: seq<byte>, end: nat, tail: seq<byte>)
    requires lo <= hi <= |file| && hi <= end && at <= |file| && (hi <= at || patch == [])
    ensures |PatchAndAppend(file, at, patch, end, tail)| >= hi
    ensures PatchAndAppend(file, at, patch, end, tail)[lo..hi] == file[lo..hi]
  {
    if hi <= at {
      SpliceKeepsBefore(file, lo, hi, at, patch);
    } else {
      SpliceNothing(file, at);
    }
    SpliceKeepsBefore(Splice(file, at, patch), lo, hi, end, tail);
  }

  /** As long as its header is not sought, the section of the chunks names no next section. */
  lemma {:induction false} UnpatchedNamesNothing(front: seq<byte>, chunks: seq<byte>, n: nat, taken: nat, returned: bool)
    requires CHUNK * n <= |chunks| && taken <= SECTION_HEADER
    ensures HeaderAt(Closing(front, chunks, n, false, taken, returned), |front|, "sectors", 0, SECTION_HEADER)
  {
    var size := SizeWithChunks(front, n);
    MiddleOf(front, SectionHeader("sectors", 0, SECTION_HEADER), StoredChunks(chunks, n));
    PatchElsewhere(Unfinished(front, chunks, n), |front|, |front| + SECTION_HEADER, size,
                   SectorsHeader(front, n)[..taken], if returned then size else size + taken, Tail(size, n));
    HeaderReads(Closing(front, chunks, n, false, taken, returned), |front|, "sectors", 0, SECTION_HEADER);
  }

  /** The header of the section of the chunks after a write that was cut short. */
  function HalfPatched(front: seq<byte>, n: nat, taken: nat): (header: seq<byte>)
    requires taken <= SECTION_HEADER
    ensures |header| == SECTION_HEADER
  {
    SectorsHeader(front, n)[..taken] + SectionHeader("sectors", 0, SECTION_HEADER)[taken..]
  }

  lemma {:induction false} SpliceInto(a: seq<byte>, b: seq<byte>, c: seq<byte>, patch: seq<byte>)
    requires |patch| <= |b|
    ensures Splice(a + b + c, |a|, patch) == a + (patch + b[|patch|..]) + c
  {
  }

  /** When the writer sought the header and returned, only the bytes of the header that were not written are old. */
  lemma {:induction false} ClosingPatches(front: seq<byte>, chunks: seq<byte>, n: nat, taken: nat)
    requires CHUNK * n <= |chunks| && taken <= SECTION_HEADER
    ensures Closing(front, chunks, n, true, taken, true)
         == front + HalfPatched(front, n, taken) + StoredChunks(chunks, n) + Tail(SizeWithChunks(front, n), n)
  {
    var unfinished, patch := SectionHeader("sectors", 0, SECTION_HEADER), SectorsHeader(front, n)[..taken];
    SpliceInto(front, unfinished, StoredChunks(chunks, n), patch);
    SpliceEnd(front + HalfPatched(front, n, taken) + StoredChunks(chunks, n), Tail(SizeWithChunks(front, n), n));
  }

  lemma {:induction false} SecondsEqual(a: seq<byte>, b: seq<byte>, b': seq<byte>, c: seq<byte>, d: seq<byte>)
    requires |b| == |b'|
    ensures a + b + c + d == a + b' + c + d <==> b == b'
  {
    var left, right := a + b + c + d, a + b' + c + d;
    assert b == left[|a|..|a| + |b|];
    assert b' == right[|a|..|a| + |b|];
  }

  /** The half-patched header is the whole one exactly when the bytes not written were right already. */
  lemma {:induction false} HalfPatchedIsWholeIff(front: seq<byte>, n: nat, taken: nat)
    requires taken <= SECTION_HEADER
    ensures HalfPatched(front, n, taken) == SectorsHeader(front, n)
       <==> SectorsHeader(front, n)[taken..] == SectionHeader("sectors", 0, SECTION_HEADER)[taken..]
  {
    var h := SectorsHeader(front, n);
    assert h == h[..taken] + h[taken..];
    assert HalfPatched(front, n, taken)[taken..] == SectionHeader("sectors", 0, SECTION_HEADER)[taken..];
  }

  lemma {:induction false} PatchedClosingIsContainerIff(front: seq<byte>, chunks: seq<byte>, n: nat, taken: nat)
    requires CHUNK * n <= |chunks| && taken <= SECTION_HEADER
    ensures Closing(front, chunks, n, true, taken, true) == Container(front, chunks, n)
       <==> SectorsHeader(front, n)[taken..] == SectionHeader("sectors", 0, SECTION_HEADER)[taken..]
  {
    ClosingPatches(front, chunks, n, taken);
    SecondsEqual(front, HalfPatched(front, n, taken), SectorsHeader(front, n), StoredChunks(chunks, n),
                 Tail(SizeWithChunks(front, n), n));
    HalfPatchedIsWholeIff(front, n, taken);
  }

  /** A writer that did not return to the end puts the tail over the chunks, and the file falls short. */
  lemma {:induction false} StrandedFallsShort(front: seq<byte>, chunks: seq<byte>, n: nat, taken: nat)
    requires CHUNK * n <= |chunks| && taken <= SECTION_HEADER && (taken < SECTION_HEADER || n > 0)
    ensures |Closing(front, chunks, n, true, taken, false)| < |Container(front, chunks, n)|
  {
  }

  /**
   The header was sought and either the writer returned to the end and the bytes of the header not written
   were right already, or it did not return, the header was written whole and no chunks stand behind it.
   */
  ghost predicate Completed(front: seq<byte>, n: nat, sought: bool, taken: nat, returned: bool)
    requires taken <= SECTION_HEADER
  {
    && sought
    && if returned then SectorsHeader(front, n)[taken..] == SectionHeader("sectors", 0, SECTION_HEADER)[taken..]
       else taken == SECTION_HEADER && n == 0
  }

  /** Exactly then what closing leaves is the container. */
  lemma {:induction false} ClosedIffCompleted(front: seq<byte>, chunks: seq<byte>, n: nat, sought: bool,
                                              taken: nat, returned: bool)
    requires CHUNK * n <= |chunks| && Fits(front, n) && taken <= SECTION_HEADER
    ensures Closing(front, chunks, n, sought, taken, returned) == Container(front, chunks, n)
       <==> Completed(front, n, sought, taken, returned)
  {
    if !sought {
      UnpatchedNamesNothing(front, chunks, n, taken, returned);
      SectorsRead(front, chunks, n);
    } else if returned {
      PatchedClosingIsContainerIff(front, chunks, n, taken);
    } else if taken == SECTION_HEADER && n == 0 {
      ClosingCompletes(front, chunks, n, returned);
    } else {
      StrandedFallsShort(front, chunks, n, taken);
    }
  }

  lemma {:induction false} OffsetsDiffer(front: seq<byte>, n: nat)
    requires Fits(front, n)
    ensures SectorsHeader(front, n)[16..24] != SectionHeader("sectors", 0, SECTION_HEADER)[16..24]
  {
    var size := SizeWithChunks(front, n);
    HeaderSlices("sectors", size, size - |front|);
    HeaderSlices("sectors", 0, SECTION_HEADER);
    LittleEndianRoundTrip(size, 8);
    LittleEndianRoundTrip(0, 8);
  }

  /** A header not written at all, or cut off in front of its offset, is never right. */
  lemma {:induction false} NothingWrittenIsWrong(front: seq<byte>, n: nat, taken: nat)
    requires Fits(front, n) && taken <= 16
    ensures SectorsHeader(front, n)[taken..] != SectionHeader("sectors", 0, SECTION_HEADER)[taken..]
  {
    var whole, old_ := SectorsHeader(front, n), SectionHeader("sectors", 0, SECTION_HEADER);
    OffsetsDiffer(front, n);
    assert whole[16..24] == whole[taken..][16 - taken..24 - taken];
    assert old_[16..24] == old_[taken..][16 - taken..24 - taken];
  }

  // ---- the writer ----

  /** A file being written: its bytes, the file pointer, and the offset the writer counts. */
  datatype Pen = Pen(file: seq<byte>, at: nat, offset: nat)

  /** The bytes are where the pointer stood, and pointer and offset have moved behind them. */
  function Written(pen: Pen, data: seq<byte>): Pen {
    Pen(Splice(pen.file, pen.at, data), pen.at + |data|, pen.offset + |data|)
  }

  lemma {:induction false} WrittenTwice(pen: Pen, first: seq<byte>, second: seq<byte>)
    ensures Written(Written(pen, first), second) == Written(pen, first + second)
  {
    SpliceTwice(pen.file, pen.at, first, second);
  }

  /** The header in front of checked data. */
  function HeaderOf(kind: string, start: nat, data: seq<byte>): (header: seq<byte>)
    requires |kind| <= 16
    ensures |header| == SECTION_HEADER
  {
    var size := SECTION_HEADER + |data| + 4;
    SectionHeader(kind, start + size, size)
  }

  /** A header and the data behind it are a section. */
  lemma {:induction false} HeaderThenData(pen: Pen, kind: string, data: seq<byte>)
    requires |kind| <= 16
    ensures Written(Written(pen, HeaderOf(kind, pen.offset, data)), Checked(data))
         == Written(pen, Section(kind, pen.offset, Checked(data)))
  {
    WrittenTwice(pen, HeaderOf(kind, pen.offset, data), Checked(data));
    assert HeaderOf(kind, pen.offset, data) + Checked(data) == Section(kind, pen.offset, Checked(data));
  }

  /** The patch and the tail behind it are what closing leaves. */
  lemma {:induction false} ClosedAs(front: seq<byte>, chunks: seq<byte>, n: nat, sought: bool, taken: nat, returned: bool,
                                    patched: Pen, end: Pen)
    requires CHUNK * n <= |chunks| && taken <= SECTION_HEADER && patched.offset == SizeWithChunks(front, n)
    requires var at := if sought then |front| else patched.offset;
             && patched.file == Splice(Unfinished(front, chunks, n), at, SectorsHeader(front, n)[..taken])
             && patched.at == if returned then patched.offset else at + taken
    requires end == Written(patched, Tail(patched.offset, n))
    ensures end.file == Closing(front, chunks, n, sought, taken, returned)
  {
  }

  lemma {:induction false} TableThenHash(pen: Pen, mid: Pen, end: Pen, n: nat)
    requires mid == Written(pen, TableSection(pen.offset, n)) && end == Written(mid, HashSection(mid.offset))
    ensures end == Written(pen, TableAndHash(pen.offset, n))
  {
    var table, hash := TableSection(pen.offset, n), HashSection(mid.offset);
    assert mid.offset == pen.offset + 80 + 4 * n;
    assert TableAndHash(pen.offset, n) == table + hash;
    WrittenTwice(pen, table, hash);
  }

  /** Whole chunks are in the file, in order, and noted in the table; the rest of the stream is buffered. */
  ghost predicate Kept(front: seq<byte>, stream: seq<byte>, table: seq<u32>, buffered: seq<byte>, file: seq<byte>) {
    && |stream| == CHUNK * |table| + |buffered|
    && stream[CHUNK * |table|..] == buffered
    && file == Unfinished(front, stream, |table|)
    && table == TableEntries(|table|)
  }

  /** Storing a full buffer with its checksum and noting it keeps the stream. */
  lemma {:induction false} KeptOneMore(front: seq<byte>, stream: seq<byte>, table: seq<u32>, chunk: seq<byte>,
                                       file: seq<byte>, distance: nat)
    requires Kept(front, stream, table, chunk, file) && |chunk| == CHUNK && distance == |file| - |front|
    ensures Kept(front, stream, table + [distance % 0x1_0000_0000], [], file + Checked(chunk))
  {
    OneMoreEntry(|table|, distance);
    OneMoreChunk(front, stream, |table|, chunk, file, file + Checked(chunk));
  }

  /** Bytes that fit the buffer join the stream. */
  lemma {:induction false} KeptGrows(front: seq<byte>, stream: seq<byte>, table: seq<u32>, buffered: seq<byte>,
                                     file: seq<byte>, piece: seq<byte>)
    requires Kept(front, stream, table, buffered, file)
    ensures Kept(front, stream + piece, table, buffered + piece, file)
  {
    StoredChunksExtend(stream, stream + piece, |table|);
  }

  class E01Writer {
    const fs: FileSystem
    const chunkBuffer: array<byte>
    var path: string
    var isOpen: bool
    var chunkBufferUsed: nat
    var currentFileOffset: nat
    var sectorsSectionOffset: nat
    var chunkTableOffsets: seq<u32>
    /** The bytes in front of the chunks, and all bytes accepted so far. */
    ghost var front: seq<byte>
    ghost var stream: seq<byte>

    constructor (fs: FileSystem)
      ensures this.fs == fs && !isOpen && fresh(chunkBuffer) && chunkBuffer.Length == CHUNK
    {
      this.fs := fs;
      chunkBuffer := new byte[CHUNK](_ => 0);
      path, isOpen := "", false;
      chunkBufferUsed, currentFileOffset, sectorsSectionOffset, chunkTableOffsets := 0, 0, 0, [];
      front, stream := [], [];
    }

    /** The file is open, and its pointer is inside it. */
    ghost predicate Writing()
      reads this, fs
    {
      fs.Valid() && isOpen && path in fs.handles && fs.handles[path] <= |fs.files[path]|
    }

    ghost function Here(): Pen
      requires Writing()
      reads this, fs
    {
      Pen(fs.files[path], fs.handles[path], currentFileOffset)
    }

    /** The pointer is where the writer believes it is: at the end of the file. */
    ghost predicate AtEnd()
      reads this, fs
    {
      Writing() && fs.handles[path] == currentFileOffset == |fs.files[path]|
    }

    /** The writer is at the end of a file that keeps the stream together with the buffer. */
    ghost predicate Valid()
      reads this, fs, chunkBuffer
    {
      && AtEnd() && chunkBuffer.Length == CHUNK && chunkBufferUsed <= CHUNK
      && sectorsSectionOffset == |front|
      && Kept(front, stream, chunkTableOffsets, chunkBuffer[..chunkBufferUsed], fs.files[path])
    }

    /** One write at the file pointer: all of it, or failure. */
    method Put(data: seq<byte>) returns (ok: bool)
      requires Writing()
      modifies fs, this`currentFileOffset
      ensures ok ==> Writing() && Here() == Written(old(Here()), data)
      ensures fs.Valid() && fs.handles.Keys == old(fs.handles).Keys && fs.Faults() >= old(fs.Faults())
      ensures Without(fs.files, path) == Without(old(fs.files), path)
      ensures !ok ==> fs.Failing(old(fs.Faults())) || |data| > MAX_DWORD
    {
      if |data| == 0 {
        SpliceNothing(fs.files[path], fs.handles[path]);
        return true;
      }
      if |data| > MAX_DWORD {
        // The length is passed as a DWORD, so the write would fall short.
        return false;
      }
      var accepted, written := fs.Write(path, data);
      ok := accepted && written == |data|;
      if ok {
        assert data[..written] == data;
        currentFileOffset := currentFileOffset + written;
      }
    }

    /** Data and their checksum. */
    method PutChecked(data: seq<byte>) returns (ok: bool)
      requires Writing()
      modifies fs, this`currentFileOffset
      ensures ok ==> Writing() && Here() == Written(old(Here()), Checked(data))
      ensures fs.Valid() && fs.handles.Keys == old(fs.handles).Keys && fs.Faults() >= old(fs.Faults())
      ensures Without(fs.files, path) == Without(old(fs.files), path)
      ensures !ok ==> fs.Failing(old(fs.Faults())) || |data| > MAX_DWORD
    {
      ok := Put(data);
      if ok {
        var dataAdler := CalculateAdler32(data, 1);
        ok := Put(LittleEndian(dataAdler, 4));
        WrittenTwice(old(Here()), data, LittleEndian(dataAdler, 4));
      }
    }

    /** A section with checked data: its header, the data, and the checksum of the data. */
    method PutSection(kind: string, data: seq<byte>) returns (ok: bool)
      requires Writing() && |kind| <= 16
      modifies fs, this`currentFileOffset
      ensures ok ==> Writing() && Here() == Written(old(Here()), Section(kind, old(currentFileOffset), Checked(data)))
      ensures fs.Valid() && fs.handles.Keys == old(fs.handles).Keys && fs.Faults() >= old(fs.Faults())
      ensures Without(fs.files, path) == Without(old(fs.files), path)
      ensures !ok ==> fs.Failing(old(fs.Faults())) || |data| > MAX_DWORD
    {
      ghost var pen := Here();
      HeaderThenData(pen, kind, data);
      ok := Put(HeaderOf(kind, currentFileOffset, data));
      if ok {
        ok := PutChecked(data);
      }
    }

    /** A write at the end makes the file longer. */
    method Append(data: seq<byte>) returns (ok: bool)
      requires AtEnd()
      modifies fs, this`currentFileOffset
      ensures ok ==> AtEnd() && fs.files[path] == old(fs.files[path]) + data
      ensures fs.Valid() && fs.handles.Keys == old(fs.handles).Keys && fs.Faults() >= old(fs.Faults())
      ensures Without(fs.files, path) == Without(old(fs.files), path)
      ensures !ok ==> fs.Failing(old(fs.Faults())) || |data| > MAX_DWORD
    {
      SpliceEnd(fs.files[path], data);
      ok := Put(data);
    }

    /** Opens the file and writes everything in front of the chunks. */
    method PreflightAndOpen(partialPath: string, meta: seq<byte>, volume: seq<byte>) returns (ok: bool)
      requires fs.Valid() && !isOpen && chunkBuffer.Length == CHUNK
      modifies this, fs
      ensures ok ==> Valid() && path == partialPath && stream == [] && front == Front(meta, volume)
      ensures fs.Valid() && fs.handles.Keys == old(fs.handles).Keys + (if isOpen then {partialPath} else {})
      ensures Without(fs.files, partialPath) == Without(old(fs.files), partialPath)
      ensures !ok ==> fs.Failing(old(fs.Faults())) || |meta| > MAX_DWORD || |volume| > MAX_DWORD || partialPath in old(fs.handles)
      ensures !isOpen ==> fs.files == old(fs.files)
    {
      stream, front := [], Front(meta, volume);
      ok := OpenEmpty(partialPath);
      if ok {
        ok := PutUpToChunks(meta, volume);
      }
    }

    /** An empty file and an empty buffer. */
    method OpenEmpty(partialPath: string) returns (ok: bool)
      requires fs.Valid() && !isOpen
      modifies fs, this`path, this`isOpen, this`currentFileOffset, this`chunkBufferUsed, this`chunkTableOffsets
      ensures isOpen == ok && chunkBufferUsed == 0 && chunkTableOffsets == []
      ensures ok ==> AtEnd() && path == partialPath && fs.files == old(fs.files)[partialPath := []]
      ensures fs.Valid() && fs.handles.Keys == old(fs.handles).Keys + (if ok then {partialPath} else {})
      ensures !ok ==> fs.files == old(fs.files) && (partialPath in old(fs.handles) || fs.Failing(old(fs.Faults())))
      ensures Without(fs.files, partialPath) == Without(old(fs.files), partialPath)
      ensures fs.Faults() >= old(fs.Faults())
    {
      chunkBufferUsed, chunkTableOffsets := 0, [];
      ok := fs.CreateAlways(partialPath);
      if ok {
        path, isOpen, currentFileOffset := partialPath, true, 0;
      }
    }

    /** Everything in front of the chunks, and the header of their section. */
    method PutUpToChunks(meta: seq<byte>, volume: seq<byte>) returns (ok: bool)
      requires AtEnd() && fs.files[path] == []
      requires front == Front(meta, volume) && stream == [] && chunkTableOffsets == []
      requires chunkBufferUsed == 0 && chunkBuffer.Length == CHUNK
      modifies fs, this`currentFileOffset, this`sectorsSectionOffset
      ensures ok ==> Valid()
      ensures fs.Valid() && fs.handles.Keys == old(fs.handles).Keys && fs.Faults() >= old(fs.Faults())
      ensures !ok ==> fs.Failing(old(fs.Faults())) || |meta| > MAX_DWORD || |volume| > MAX_DWORD
      ensures Without(fs.files, path) == Without(old(fs.files), path)
    {
      ok := PutFront(meta, volume);
      if ok {
        sectorsSectionOffset := currentFileOffset;
        ok := Append(SectionHeader("sectors", 0, SECTION_HEADER));
      }
    }

    /** File header, header section and volume section. */
    method PutFront(meta: seq<byte>, volume: seq<byte>) returns (ok: bool)
      requires AtEnd() && fs.files[path] == [] && front == Front(meta, volume)
      modifies fs, this`currentFileOffset
      ensures ok ==> AtEnd() && fs.files[path] == front
      ensures fs.Valid() && fs.handles.Keys == old(fs.handles).Keys && fs.Faults() >= old(fs.Faults())
      ensures !ok ==> fs.Failing(old(fs.Faults())) || |meta| > MAX_DWORD || |volume| > MAX_DWORD
      ensures Without(fs.files, path) == Without(old(fs.files), path)
    {
      ok := Append(FILE_HEADER);
      assert ok ==> fs.files[path] == FILE_HEADER;
      if ok {
        ok := AppendSection("header", meta, 13);
      }
      if ok {
        ok := AppendSection("volume", volume, 93 + |meta|);
      }
    }

    method AppendSection(kind: string, data: seq<byte>, ghost start: nat) returns (ok: bool)
      requires AtEnd() && |kind| <= 16 && start == currentFileOffset
      modifies fs, this`currentFileOffset
      ensures ok ==> AtEnd() && fs.files[path] == old(fs.files[path]) + Section(kind, start, Checked(data))
      ensures fs.Valid() && fs.handles.Keys == old(fs.handles).Keys && fs.Faults() >= old(fs.Faults())
      ensures !ok ==> fs.Failing(old(fs.Faults())) || |data| > MAX_DWORD
      ensures Without(fs.files, path) == Without(old(fs.files), path)
    {
      SpliceEnd(fs.files[path], Section(kind, start, Checked(data)));
      ok := PutSection(kind, data);
    }

    /** Stores the chunk in the buffer, filled up with zeros. */
    method FlushActiveChunk() returns (ok: bool)
      requires Valid()
      modifies fs, chunkBuffer, this`chunkBufferUsed, this`currentFileOffset, this`chunkTableOffsets, this`stream
      ensures ok ==> Valid() && chunkBufferUsed == 0 && stream == Padded(old(stream))
      ensures fs.Valid() && fs.handles.Keys == old(fs.handles).Keys && fs.Faults() >= old(fs.Faults())
      ensures Without(fs.files, path) == Without(old(fs.files), path)
      ensures !ok ==> fs.Failing(old(fs.Faults()))
    {
      PaddedByChunks(stream, |chunkTableOffsets|, chunkBufferUsed);
      if chunkBufferUsed == 0 {
        return true;
      }
      CopyIn(Zeros(CHUNK - chunkBufferUsed));
      ok := StoreBuffer();
    }

    method StoreBuffer() returns (ok: bool)
      requires Valid() && chunkBufferUsed == CHUNK
      modifies fs, this`chunkBufferUsed, this`currentFileOffset, this`chunkTableOffsets
      ensures ok ==> Valid() && chunkBufferUsed == 0
      ensures fs.Valid() && fs.handles.Keys == old(fs.handles).Keys && fs.Faults() >= old(fs.Faults())
      ensures Without(fs.files, path) == Without(old(fs.files), path)
      ensures !ok ==> fs.Failing(old(fs.Faults()))
    {
      var distance := currentFileOffset - sectorsSectionOffset;
      assert chunkBuffer[..] == chunkBuffer[..chunkBufferUsed];
      KeptOneMore(front, stream, chunkTableOffsets, chunkBuffer[..], fs.files[path], distance);
      chunkTableOffsets := chunkTableOffsets + [distance % 0x1_0000_0000];
      ok := AppendChecked(chunkBuffer[..]);
      if ok {
        chunkBufferUsed := 0;
        assert chunkBuffer[..chunkBufferUsed] == [];
      }
    }

    method AppendChecked(data: seq<byte>) returns (ok: bool)
      requires AtEnd()
      modifies fs, this`currentFileOffset
      ensures ok ==> AtEnd() && fs.files[path] == old(fs.files[path]) + Checked(data)
      ensures fs.Valid() && fs.handles.Keys == old(fs.handles).Keys && fs.Faults() >= old(fs.Faults())
      ensures Without(fs.files, path) == Without(old(fs.files), path)
      ensures !ok ==> fs.Failing(old(fs.Faults())) || |data| > MAX_DWORD
    {
      SpliceEnd(fs.files[path], Checked(data));
      ok := PutChecked(data);
    }

    /** Takes the data into the buffer and stores every chunk that fills up; the address is ignored. */
    method WriteAt(offset: nat, data: seq<byte>) returns (ok: bool)
      requires fs.Valid() && (isOpen ==> Valid() && chunkBufferUsed < CHUNK)
      modifies fs, chunkBuffer, this`chunkBufferUsed, this`currentFileOffset, this`chunkTableOffsets, this`stream
      ensures ok ==> isOpen && Valid() && chunkBufferUsed < CHUNK && stream == old(stream) + data && |data| > 0
      ensures !isOpen || |data| == 0 ==> !ok && fs.files == old(fs.files) && stream == old(stream)
      ensures fs.Valid() && fs.handles.Keys == old(fs.handles).Keys && fs.Faults() >= old(fs.Faults())
      ensures Without(fs.files, path) == Without(old(fs.files), path)
      ensures !ok ==> !isOpen || |data| == 0 || fs.Failing(old(fs.Faults()))
    {
      if !isOpen || |data| == 0 {
        return false;
      }
      var done := 0;
      while done < |data|
        invariant done <= |data| && Valid() && chunkBufferUsed < CHUNK
        invariant stream == old(stream) + data[..done]
        invariant fs.handles.Keys == old(fs.handles).Keys && fs.Faults() >= old(fs.Faults())
        invariant Without(fs.files, path) == Without(old(fs.files), path)
      {
        var toCopy := Min(|data| - done, CHUNK - chunkBufferUsed);
        ok := Absorb(data[done..done + toCopy]);
        if !ok {
          return;
        }
        PieceJoins(old(stream), data, done, toCopy);
        done := done + toCopy;
      }
      assert data[..done] == data;
      ok := true;
    }

    /** Takes a piece that fits the buffer, and stores the chunk if that fills it. */
    method Absorb(piece: seq<byte>) returns (ok: bool)
      requires Valid() && chunkBufferUsed < CHUNK && chunkBufferUsed + |piece| <= CHUNK
      modifies fs, chunkBuffer, this`chunkBufferUsed, this`currentFileOffset, this`chunkTableOffsets, this`stream
      ensures ok ==> Valid() && chunkBufferUsed < CHUNK && stream == old(stream) + piece
      ensures fs.Valid() && fs.handles.Keys == old(fs.handles).Keys && fs.Faults() >= old(fs.Faults())
      ensures Without(fs.files, path) == Without(old(fs.files), path)
      ensures !ok ==> fs.Failing(old(fs.Faults()))
    {
      CopyIn(piece);
      ok := true;
      if chunkBufferUsed == CHUNK {
        PaddedByChunks(stream, |chunkTableOffsets|, CHUNK);
        ok := FlushActiveChunk();
      }
    }

    method CopyIn(piece: seq<byte>)
      requires Valid() && chunkBufferUsed + |piece| <= CHUNK
      modifies chunkBuffer, this`chunkBufferUsed, this`stream
      ensures Valid() && stream == old(stream) + piece && chunkBufferUsed == old(chunkBufferUsed) + |piece|
    {
      ghost var buffered := chunkBuffer[..chunkBufferUsed];
      KeptGrows(front, stream, chunkTableOffsets, buffered, fs.files[path], piece);
      forall k | 0 <= k < |piece| {
        chunkBuffer[chunkBufferUsed + k] := piece[k];
      }
      stream := stream + piece;
      chunkBufferUsed := chunkBufferUsed + |piece|;
      assert chunkBuffer[..chunkBufferUsed] == buffered + piece;
    }

    /** One write whose answer nobody looks at. */
    method PutUnchecked(data: seq<byte>) returns (ghost taken: nat)
      requires Writing() && |data| > 0
      modifies fs
      ensures Writing() && fs.handles.Keys == old(fs.handles).Keys && taken <= |data|
      ensures fs.files[path] == Splice(old(fs.files)[path], old(fs.handles)[path], data[..taken])
      ensures fs.handles[path] == old(fs.handles)[path] + taken && fs.Faults() >= old(fs.Faults())
      ensures Without(fs.files, path) == Without(old(fs.files), path)
    {
      SpliceNothing(fs.files[path], fs.handles[path]);
      var accepted, written := fs.Write(path, data);
      taken := if accepted then written else 0;
    }

    /** A seek and a write whose answers nobody looks at. */
    method OverwriteUnchecked(position: nat, data: seq<byte>) returns (ghost sought: bool, ghost taken: nat)
      requires Writing() && |data| > 0 && position <= |fs.files[path]|
      modifies fs
      ensures Writing() && fs.handles.Keys == old(fs.handles).Keys && taken <= |data|
      ensures var at := if sought then position else old(fs.handles)[path];
              && fs.files[path] == Splice(old(fs.files)[path], at, data[..taken])
              && fs.handles[path] == at + taken
      ensures Without(fs.files, path) == Without(old(fs.files), path)
      ensures fs.Faults() >= old(fs.Faults())
    {
      var seeked := fs.Seek(path, position);
      sought := seeked;
      taken := PutUnchecked(data);
    }

    /** Rewrites the header of the section of the chunks, whatever the three system calls answer. */
    method PatchSectorsHeader() returns (ghost sought: bool, ghost taken: nat, ghost returned: bool)
      requires Valid()
      modifies fs
      ensures Writing() && fs.handles.Keys == old(fs.handles).Keys && taken <= SECTION_HEADER
      ensures var n := |chunkTableOffsets|;
              var at := if sought then |front| else currentFileOffset;
              && fs.files[path] == Splice(Unfinished(front, stream, n), at, SectorsHeader(front, n)[..taken])
              && fs.handles[path] == if returned then currentFileOffset else at + taken
      ensures Without(fs.files, path) == Without(old(fs.files), path)
      ensures fs.Faults() >= old(fs.Faults())
    {
      assert SectionHeader("sectors", currentFileOffset, currentFileOffset - sectorsSectionOffset)
          == SectorsHeader(front, |chunkTableOffsets|);
      sought, taken := OverwriteUnchecked(
        sectorsSectionOffset, SectionHeader("sectors", currentFileOffset, currentFileOffset - sectorsSectionOffset));
      var back := fs.Seek(path, currentFileOffset);
      returned := back;
    }

    /** Table, hash and done sections at the file pointer. */
    method PutTail() returns (ok: bool)
      requires Writing() && chunkTableOffsets == TableEntries(|chunkTableOffsets|)
      modifies fs, this`currentFileOffset
      ensures fs.Valid() && fs.handles.Keys == old(fs.handles).Keys && fs.Faults() >= old(fs.Faults())
      ensures ok ==> Writing() && Here() == Written(old(Here()), Tail(old(currentFileOffset), |chunkTableOffsets|))
      ensures Without(fs.files, path) == Without(old(fs.files), path)
      ensures !ok ==> fs.Failing(old(fs.Faults())) || 4 * |chunkTableOffsets| > MAX_DWORD
    {
      ghost var pen, n := Here(), |chunkTableOffsets|;
      ok := PutTableAndHash();
      if ok {
        ok := Put(SectionHeader("done", 0, SECTION_HEADER));
        WrittenTwice(pen, TableAndHash(pen.offset, n), SectionHeader("done", 0, SECTION_HEADER));
      }
    }

    method PutTableAndHash() returns (ok: bool)
      requires Writing() && chunkTableOffsets == TableEntries(|chunkTableOffsets|)
      modifies fs, this`currentFileOffset
      ensures fs.Valid() && fs.handles.Keys == old(fs.handles).Keys && fs.Faults() >= old(fs.Faults())
      ensures ok ==> Writing()
                     && Here() == Written(old(Here()), TableAndHash(old(currentFileOffset), |chunkTableOffsets|))
      ensures Without(fs.files, path) == Without(old(fs.files), path)
      ensures !ok ==> fs.Failing(old(fs.Faults())) || 4 * |chunkTableOffsets| > MAX_DWORD
    {
      ghost var pen := Here();
      ok := PutTable();
      if ok {
        ghost var mid := Here();
        ok := PutHash();
        if ok {
          TableThenHash(pen, mid, Here(), |chunkTableOffsets|);
        }
      }
    }

    method PutTable() returns (ok: bool)
      requires Writing() && chunkTableOffsets == TableEntries(|chunkTableOffsets|)
      modifies fs, this`currentFileOffset
      ensures fs.Valid() && fs.handles.Keys == old(fs.handles).Keys && fs.Faults() >= old(fs.Faults())
      ensures ok ==> Writing()
                     && Here() == Written(old(Here()), TableSection(old(currentFileOffset), |chunkTableOffsets|))
      ensures Without(fs.files, path) == Without(old(fs.files), path)
      ensures !ok ==> fs.Failing(old(fs.Faults())) || 4 * |chunkTableOffsets| > MAX_DWORD
    {
      ok := PutSection("table", TableBytes(chunkTableOffsets));
    }

    method PutHash() returns (ok: bool)
      requires Writing()
      modifies fs, this`currentFileOffset
      ensures fs.Valid() && fs.handles.Keys == old(fs.handles).Keys && fs.Faults() >= old(fs.Faults())
      ensures ok ==> Writing() && Here() == Written(old(Here()), HashSection(old(currentFileOffset)))
      ensures Without(fs.files, path) == Without(old(fs.files), path)
      ensures !ok ==> fs.Failing(old(fs.Faults()))
    {
      ghost var pen := Here();
      var header := SectionHeader("hash", currentFileOffset + SECTION_HEADER + 36, SECTION_HEADER + 36);
      ok := Put(header);
      if ok {
        ok := Put(Zeros(36));
        WrittenTwice(pen, header, Zeros(36));
      }
    }

    /**
     Stores what is left, completes the container and closes the file; a writer that is not open has
     nothing to do.  For any split of the stream into writes the file is a function of the stream, and of
     what the system did with the three calls that complete the section of the chunks.
     */
    method FlushAndClose() returns (ok: bool, ghost n: nat, ghost sought: bool, ghost taken: nat, ghost returned: bool)
      requires fs.Valid() && (isOpen ==> Valid())
      modifies this, fs, chunkBuffer
      ensures fs.Valid() && !isOpen && front == old(front) && path == old(path)
      ensures fs.handles.Keys == if old(isOpen) then old(fs.handles).Keys - {path} else old(fs.handles).Keys
      ensures Without(fs.files, path) == Without(old(fs.files), path)
      ensures !old(isOpen) ==> ok && fs.files == old(fs.files)
      ensures !ok ==> fs.Failing(old(fs.Faults())) || 4 * |Padded(old(stream))| > CHUNK * MAX_DWORD
      ensures ok && old(isOpen) ==>
                && |Padded(old(stream))| == CHUNK * n && taken <= SECTION_HEADER && path in fs.files
                && fs.files[path] == Closing(front, Padded(old(stream)), n, sought, taken, returned)
      ensures ok && old(isOpen) && Fits(front, n) ==>
                (fs.files[path] == Container(front, Padded(old(stream)), n)
                 <==> Completed(front, n, sought, taken, returned))
    {
      n, sought, taken, returned := 0, false, 0, false;
      if !isOpen {
        return true, n, sought, taken, returned;
      }
      ok, n, sought, taken, returned := FinishAndClose();
      if ok && Fits(front, n) {
        ClosedIffCompleted(front, Padded(old(stream)), n, sought, taken, returned);
      }
    }

    method FinishAndClose() returns (ok: bool, ghost n: nat, ghost sought: bool, ghost taken: nat, ghost returned: bool)
      requires Valid()
      modifies this, fs, chunkBuffer
      ensures fs.Valid() && !isOpen && front == old(front) && path == old(path)
      ensures fs.handles.Keys == old(fs.handles).Keys - {path}
      ensures Without(fs.files, path) == Without(old(fs.files), path)
      ensures !ok ==> fs.Failing(old(fs.Faults())) || 4 * |Padded(old(stream))| > CHUNK * MAX_DWORD
      ensures ok ==> && |Padded(old(stream))| == CHUNK * n && taken <= SECTION_HEADER && path in fs.files
                     && fs.files[path] == Closing(front, Padded(old(stream)), n, sought, taken, returned)
    {
      ok, n, sought, taken, returned := Finish();
      fs.CloseHandle(path);
      isOpen := false;
    }

    /** Everything that is written after the last byte of the stream has been taken, and flushed. */
    method Finish() returns (ok: bool, ghost n: nat, ghost sought: bool, ghost taken: nat, ghost returned: bool)
      requires Valid()
      modifies fs, chunkBuffer, this`chunkBufferUsed, this`currentFileOffset, this`chunkTableOffsets, this`stream
      ensures fs.Valid() && fs.handles.Keys == old(fs.handles).Keys && fs.Faults() >= old(fs.Faults())
      ensures Without(fs.files, path) == Without(old(fs.files), path)
      ensures ok ==> |Padded(old(stream))| == CHUNK * n && taken <= SECTION_HEADER && path in fs.files
      ensures ok ==> fs.files[path] == Closing(front, Padded(old(stream)), n, sought, taken, returned)
      ensures !ok ==> fs.Failing(old(fs.Faults())) || 4 * |Padded(old(stream))| > CHUNK * MAX_DWORD
    {
      n, sought, taken, returned := 0, false, 0, false;
      ok := FlushActiveChunk();
      if ok {
        ok, n, sought, taken, returned := Complete();
      }
      if ok {
        ok := fs.Control(path);
      }
    }

    method Complete() returns (ok: bool, ghost n: nat, ghost sought: bool, ghost taken: nat, ghost returned: bool)
      requires Valid() && chunkBufferUsed == 0
      modifies fs, this`currentFileOffset
      ensures fs.Valid() && fs.handles.Keys == old(fs.handles).Keys && fs.Faults() >= old(fs.Faults())
      ensures Without(fs.files, path) == Without(old(fs.files), path)
      ensures |stream| == CHUNK * n && taken <= SECTION_HEADER
      ensures ok ==> fs.files[path] == Closing(front, stream, n, sought, taken, returned)
      ensures !ok ==> fs.Failing(old(fs.Faults())) || 4 * n > MAX_DWORD
    {
      n := |chunkTableOffsets|;
      sought, taken, returned := PatchSectorsHeader();
      ghost var patched := Here();
      ok := PutTail();
      if ok {
        ClosedAs(front, stream, n, sought, taken, returned, patched, Here());
      }
    }
  }

  /** Adding a whole chunk and its checksum to the file is storing one chunk more of the stream. */
  lemma {:induction false} OneMoreChunk(front: seq<byte>, stream: seq<byte>, n: nat, chunk: seq<byte>,
                                        before: seq<byte>, after: seq<byte>)
    requires |stream| == CHUNK * (n + 1) && chunk == stream[CHUNK * n..]
    requires before == Unfinished(front, stream, n) && after == before + Checked(chunk)
    ensures after == Unfinished(front, stream, n + 1) && stream[CHUNK * (n + 1)..] == []
  {
    assert stream[CHUNK * n..CHUNK * (n + 1)] == chunk;
    Associates(front + SectionHeader("sectors", 0, SECTION_HEADER), StoredChunks(stream, n), Checked(chunk));
  }

  lemma {:induction false} PieceJoins(before: seq<byte>, data: seq<byte>, done: nat, count: nat)
    requires done + count <= |data|
    ensures before + data[..done] + data[done..done + count] == before + data[..done + count]
  {
  }

  lemma {:induction false} Associates(a: seq<byte>, b: seq<byte>, c: seq<byte>)
    ensures a + b + c == a + (b + c)
  {
  }

  lemma {:induction false} OneMoreEntry(n: nat, distance: nat)
    requires distance == SECTION_HEADER + STORED_CHUNK * n
    ensures TableEntries(n) + [distance % 0x1_0000_0000] == TableEntries(n + 1)
  {
  }

  /** Padding a stream of `n` whole chunks and `used` bytes. */
  lemma {:induction false} PaddedByChunks(stream: seq<byte>, n: nat, used: nat)
    requires |stream| == CHUNK * n + used && used <= CHUNK
    ensures used == 0 || used == CHUNK ==> Padded(stream) == stream
    ensures 0 < used ==> Padded(stream) == stream + Zeros(CHUNK - used) && |Padded(stream)| == CHUNK * (n + 1)
  {
    if used == CHUNK {
      assert |stream| == CHUNK * (n + 1) && |stream| % CHUNK == 0;
      assert stream + Zeros(0) == stream;
    } else {
      assert |stream| % CHUNK == used;
    }
  }
}
