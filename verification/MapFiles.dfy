/** The provenance map as a record, and the encodings between records, texts, bytes and digests. */
module MapFiles {
  import opened Words
  import opened Hashing
  import opened Hex

  datatype RangeEntry = RangeEntry(driverRun: u32, start: string, length: u64) {
    function ParseStart(): (r: Option<nat>)
      ensures r.Some? ==> r.value <= U64_MAX
    {
      ParseU64(start)
    }
  }

  datatype UnreadableEntry = UnreadableEntry(start: string, length: u64, ntstatus: string) {
    function ParseStart(): (r: Option<nat>)
      ensures r.Some? ==> r.value <= U64_MAX
    {
      ParseU64(start)
    }

    function ParseNtstatus(): Option<nat> {
      ParseU32(ntstatus)
    }
  }

  datatype MapFile = MapFile(
    producer: string, producerVersion: string, schema: string, status: string,
    logicalSize: u64, physicalBytes: u64, acquiredBytes: u64, unreadableBytes: u64,
    topologyChanged: bool, sha256: string,
    ranges: seq<RangeEntry>, unreadable: seq<UnreadableEntry>)

  /** What is borrowed from libraries: the JSON printer and parser, UTF-8, and SHA-256. */
  datatype Codec = Codec(
    render: MapFile -> string,
    parse: string -> Option<MapFile>,
    utf8: string -> seq<byte>,
    fromUtf8: seq<byte> -> Option<string>,
    digest: seq<byte> -> Digest)
}
