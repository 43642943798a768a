/**
 The offline verifier.  Its loops are proved against verdicts that say which check of which entry
 fails first; the verdicts are proved equivalent to a declarative description of a sound bundle.
 */
module Verifier {
  import opened Words
  import opened Files
  import opened Hashing
  import opened MapFiles

  const ZERO_CHECK_CHUNK_BYTES: nat := 1024 * 1024
  const HASH_READ_BYTES: nat := 1024 * 1024

  datatype VerificationError =
    | Io
    | Json
    | ParseInt
    | InvalidProducer(producer: string)
    | InvalidSchema(schema: string)
    | InvalidStatus(status: string)
    | InvalidHashEncoding(hash: string)
    | SizeMismatch(expected: nat, actual: nat)
    | ZeroLengthRange(index: nat)
    | RangeArithmeticOverflow(index: nat)
    | RangeBeyondLogicalSize(index: nat, end: nat, logicalSize: nat)
    | RangeOverlap(previousEnd: nat, nextStart: nat)
    | HighestPhysicalEndMismatch(expected: nat, actual: nat)
    | DuplicateDriverRun(run: nat)
    | DriverRunDomainMismatch
    | PhysicalSumOverflow
    | PhysicalSumMismatch(expected: nat, actual: nat)
    | AccountingOverflow
    | AccountingMismatch(physical: nat, accounted: nat)
    | InvalidUnreadableSpan(index: nat, start: nat, length: nat)
    | UnreadableArithmeticOverflow(index: nat)
    | UnreadableOverlap(previousEnd: nat, nextStart: nat)
    | UnreadableOutsidePhysicalRun(index: nat, start: nat, end: nat)
    | UnreadableSumOverflow
    | UnreadableSumMismatch(expected: nat, actual: nat)
    | UnreadableRepresentationMismatch(start: nat, offset: nat)
    | HashMismatch(mapHash: string, fileHash: string)
    | SidecarMismatch(sidecar: string, computed: string)

  datatype ParsedRange = ParsedRange(start: nat, end: nat)

  // ---- ranges ----

  /** Bytes of the first `n` ranges. */
  function RangeSumTo(ranges: seq<RangeEntry>, n: nat): nat
    requires n <= |ranges|
  {
    if n == 0 then 0 else RangeSumTo(ranges, n - 1) + ranges[n - 1].length
  }

  function RangeSum(ranges: seq<RangeEntry>): nat {
    RangeSumTo(ranges, |ranges|)
  }

  /** The first thing wrong with range `i`, given that nothing is wrong with those before it. */
  function RangeFault(map_: MapFile, i: nat): Option<VerificationError>
    requires i < |map_.ranges|
  {
    var range := map_.ranges[i];
    var start := range.ParseStart();
    if range.length == 0 then Some(ZeroLengthRange(i))
    else if exists j :: 0 <= j < i && map_.ranges[j].driverRun == range.driverRun then
      Some(DuplicateDriverRun(range.driverRun))
    else if start.None? then Some(ParseInt)
    else if start.value + range.length > U64_MAX then Some(RangeArithmeticOverflow(i))
    else if start.value + range.length > map_.logicalSize then
      Some(RangeBeyondLogicalSize(i, start.value + range.length, map_.logicalSize))
    else if i > 0 && map_.ranges[i - 1].ParseStart().Some?
            && start.value < map_.ranges[i - 1].ParseStart().value + map_.ranges[i - 1].length then
      Some(RangeOverlap(map_.ranges[i - 1].ParseStart().value + map_.ranges[i - 1].length, start.value))
    else None
  }

  /** No fault before range `n`. */
  ghost predicate RangesClean(map_: MapFile, n: nat)
    requires n <= |map_.ranges|
  {
    forall i :: 0 <= i < n ==> RangeFault(map_, i) == None
  }

  /** The declarative description of the ranges of a sound map. */
  ghost predicate RangesSound(m: MapFile) {
    && |m.ranges| > 0
    && (forall i :: 0 <= i < |m.ranges| ==> m.ranges[i].length > 0 && m.ranges[i].ParseStart().Some?)
    && (forall i, j :: 0 <= i < j < |m.ranges| ==> EndOf(m.ranges[i]) <= StartOf(m.ranges[j]))
    && (forall i :: 0 <= i < |m.ranges| ==> EndOf(m.ranges[i]) <= m.logicalSize)
    && (exists i :: 0 <= i < |m.ranges| && EndOf(m.ranges[i]) == m.logicalSize)
    && RangeSum(m.ranges) == m.physicalBytes
    && DriverRunsPermute(m.ranges)
  }

  /** The driver's run numbers are 0 to n-1, each once. */
  ghost predicate DriverRunsPermute(ranges: seq<RangeEntry>) {
    && (forall i, j :: 0 <= i < j < |ranges| ==> ranges[i].driverRun != ranges[j].driverRun)
    && (forall i :: 0 <= i < |ranges| ==> ranges[i].driverRun < |ranges|)
  }

  function StartOf(range: RangeEntry): nat {
    match range.ParseStart()
    case Some(start) => start
    case None => 0
  }

  function EndOf(range: RangeEntry): nat {
    StartOf(range) + range.length
  }

  lemma {:induction false} CleanRangesAscend(m: MapFile, n: nat, i: nat, j: nat)
    requires n <= |m.ranges| && RangesClean(m, n) && i < j < n
    ensures EndOf(m.ranges[i]) <= StartOf(m.ranges[j])
    decreases j
  {
    assert RangeFault(m, j) == None && RangeFault(m, j - 1) == None;
    if i < j - 1 {
      CleanRangesAscend(m, n, i, j - 1);
    }
  }

  /** The running sum never exceeds the end of the previous range, so it cannot leave 64 bits. */
  lemma {:induction false} RangeSumBelowEnd(m: MapFile, n: nat)
    requires 0 < n <= |m.ranges| && RangesClean(m, n)
    ensures RangeSumTo(m.ranges, n) <= EndOf(m.ranges[n - 1]) <= m.logicalSize
  {
    assert RangeFault(m, n - 1) == None;
    if n > 1 {
      RangeSumBelowEnd(m, n - 1);
      assert RangeFault(m, n - 2) == None;
    }
  }

  ghost function RunsUpTo(ranges: seq<RangeEntry>, n: nat): set<u32>
    requires n <= |ranges|
  {
    set i | 0 <= i < n :: ranges[i].driverRun
  }

  /** The numbers 0 to n-1, as driver run numbers. */
  function Below(n: nat): (s: set<u32>)
    requires n <= U32_MAX + 1
    ensures forall x: u32 :: x in s <==> x < n
  {
    if n == 0 then {} else Below(n - 1) + {n - 1}
  }

  lemma {:induction false} BelowSize(n: nat)
    requires n <= U32_MAX + 1
    ensures |Below(n)| == n
  {
    if n > 0 {
      BelowSize(n - 1);
    }
  }

  lemma {:induction false} SubsetOfEqualSize(a: set<u32>, b: set<u32>)
    requires a <= b && |a| == |b|
    ensures a == b
  {
    assert |b - a| == |b| - |a|;
  }

  lemma {:induction false} SubsetIsNoLarger(a: set<u32>, b: set<u32>)
    requires a <= b
    ensures |a| <= |b|
  {
    assert |b - a| == |b| - |a|;
  }

  lemma {:induction false} DistinctRunsCount(ranges: seq<RangeEntry>, n: nat)
    requires n <= |ranges|
    requires forall i, j :: 0 <= i < j < n ==> ranges[i].driverRun != ranges[j].driverRun
    ensures |RunsUpTo(ranges, n)| == n
  {
    if n > 0 {
      DistinctRunsCount(ranges, n - 1);
      assert RunsUpTo(ranges, n) == RunsUpTo(ranges, n - 1) + {ranges[n - 1].driverRun};
      assert ranges[n - 1].driverRun !in RunsUpTo(ranges, n - 1);
    } else {
      assert RunsUpTo(ranges, 0) == {};
    }
  }

  /** The set comparison of the verifier accepts exactly the permutations. */
  lemma {:induction false} DomainCheckIsPermutation(ranges: seq<RangeEntry>)
    requires forall i, j :: 0 <= i < j < |ranges| ==> ranges[i].driverRun != ranges[j].driverRun
    ensures |ranges| <= U32_MAX + 1 && (RunsUpTo(ranges, |ranges|) == Below(|ranges|) <==> DriverRunsPermute(ranges))
  {
    var n := |ranges|;
    var runs := RunsUpTo(ranges, n);
    DistinctRunsCount(ranges, n);
    BelowSize(U32_MAX + 1);
    SubsetIsNoLarger(runs, Below(U32_MAX + 1));
    BelowSize(n);
    if DriverRunsPermute(ranges) {
      assert runs <= Below(n);
      SubsetOfEqualSize(runs, Below(n));
    }
    if runs == Below(n) {
      forall i | 0 <= i < n
        ensures ranges[i].driverRun < n
      {
        assert ranges[i].driverRun in runs;
      }
    }
  }

  /** The error is what is wrong with the first faulty range. */
  ghost predicate FirstRangeFault(m: MapFile, error: VerificationError) {
    exists i :: 0 <= i < |m.ranges| && RangesClean(m, i) && RangeFault(m, i) == Some(error)
  }

  /** What `validate_ranges` must answer. */
  ghost predicate RangesVerdict(m: MapFile, r: Result<seq<ParsedRange>, VerificationError>) {
    if |m.ranges| == 0 then r == Err(DriverRunDomainMismatch)
    else if !RangesClean(m, |m.ranges|) then r.Err? && FirstRangeFault(m, r.error)
    else if RangeSum(m.ranges) != m.physicalBytes then
      r == Err(PhysicalSumMismatch(m.physicalBytes, RangeSum(m.ranges)))
    else if EndOf(m.ranges[|m.ranges| - 1]) != m.logicalSize then
      r == Err(HighestPhysicalEndMismatch(EndOf(m.ranges[|m.ranges| - 1]), m.logicalSize))
    else if !DriverRunsPermute(m.ranges) then r == Err(DriverRunDomainMismatch)
    else r.Ok? && |r.value| == |m.ranges| && ParsedAs(m.ranges, r.value)
  }

  /** The parsed ranges are the map's first ranges. */
  ghost predicate ParsedAs(ranges: seq<RangeEntry>, parsed: seq<ParsedRange>) {
    && |parsed| <= |ranges|
    && forall i :: 0 <= i < |parsed| ==> parsed[i] == ParsedRange(StartOf(ranges[i]), EndOf(ranges[i]))
  }

  /** One range, after the ones before it proved clean. */
  method ValidateRange(m: MapFile, index: nat, seen: set<u32>, previousEnd: nat)
    returns (r: Result<ParsedRange, VerificationError>)
    requires index < |m.ranges| && RangesClean(m, index) && seen == RunsUpTo(m.ranges, index)
    requires index > 0 ==> previousEnd == EndOf(m.ranges[index - 1])
    ensures match RangeFault(m, index)
            case Some(error) => r == Err(error)
            case None =>
              && m.ranges[index].ParseStart().Some?
              && r == Ok(ParsedRange(StartOf(m.ranges[index]), EndOf(m.ranges[index])))
  {
    var range := m.ranges[index];
    assert index > 0 ==> RangeFault(m, index - 1) == None;
    if range.length == 0 {
      return Err(ZeroLengthRange(index));
    }
    if range.driverRun in seen {
      return Err(DuplicateDriverRun(range.driverRun));
    }
    assert forall j :: 0 <= j < index ==> m.ranges[j].driverRun in RunsUpTo(m.ranges, index);
    var parsedStart := range.ParseStart();
    if parsedStart.None? {
      return Err(ParseInt);
    }
    var start := parsedStart.value;
    if range.length > U64_MAX - start {
      return Err(RangeArithmeticOverflow(index));
    }
    var end := start + range.length;
    if end > m.logicalSize {
      return Err(RangeBeyondLogicalSize(index, end, m.logicalSize));
    }
    if index != 0 && start < previousEnd {
      return Err(RangeOverlap(previousEnd, start));
    }
    return Ok(ParsedRange(start, end));
  }

  /** What the loop over the ranges has gathered. */
  datatype RangeScan = RangeScan(parsed: seq<ParsedRange>, seen: set<u32>, physicalSum: u64, highestEnd: nat)

  ghost predicate Scanned(m: MapFile, n: nat, scan: RangeScan)
    requires n <= |m.ranges|
  {
    && RangesClean(m, n)
    && |scan.parsed| == n && ParsedAs(m.ranges, scan.parsed)
    && scan.seen == RunsUpTo(m.ranges, n)
    && scan.physicalSum == RangeSumTo(m.ranges, n)
    && scan.highestEnd == if n == 0 then 0 else EndOf(m.ranges[n - 1])
  }

  lemma {:induction false} RunsUpToNext(ranges: seq<RangeEntry>, n: nat)
    requires n < |ranges|
    ensures RunsUpTo(ranges, n + 1) == RunsUpTo(ranges, n) + {ranges[n].driverRun}
  {
  }

  lemma {:induction false} ParsedOneMore(ranges: seq<RangeEntry>, parsed: seq<ParsedRange>)
    requires |parsed| < |ranges| && ParsedAs(ranges, parsed)
    ensures ParsedAs(ranges, parsed + [ParsedRange(StartOf(ranges[|parsed|]), EndOf(ranges[|parsed|]))])
  {
  }

  lemma {:induction false} CleanOneMore(m: MapFile, n: nat)
    requires n < |m.ranges| && RangesClean(m, n) && RangeFault(m, n) == None
    ensures RangesClean(m, n + 1)
  {
  }

  /** The sum stays below the end of the next range, and the ends rise. */
  lemma {:induction false} NextRangeBounds(m: MapFile, n: nat)
    requires n < |m.ranges| && RangesClean(m, n + 1)
    ensures RangeSumTo(m.ranges, n) + m.ranges[n].length <= EndOf(m.ranges[n]) <= U64_MAX
    ensures n > 0 ==> EndOf(m.ranges[n - 1]) <= EndOf(m.ranges[n])
  {
    RangeSumBelowEnd(m, n + 1);
    if n > 0 {
      CleanRangesAscend(m, n + 1, n - 1, n);
    }
  }

  /** What the loop has gathered after one more range without fault. */
  lemma {:induction false} ScanExtends(m: MapFile, n: nat, scan: RangeScan, range: ParsedRange)
    requires n < |m.ranges| && Scanned(m, n, scan) && RangeFault(m, n) == None
    requires range == ParsedRange(StartOf(m.ranges[n]), EndOf(m.ranges[n]))
    ensures scan.physicalSum + m.ranges[n].length <= EndOf(m.ranges[n]) <= U64_MAX
    ensures scan.highestEnd <= EndOf(m.ranges[n])
    ensures Scanned(m, n + 1, RangeScan(scan.parsed + [range], scan.seen + {m.ranges[n].driverRun},
                                        scan.physicalSum + m.ranges[n].length, range.end))
  {
    CleanOneMore(m, n);
    NextRangeBounds(m, n);
    ParsedOneMore(m.ranges, scan.parsed);
    RunsUpToNext(m.ranges, n);
  }

  method ScanRanges(m: MapFile) returns (r: Result<RangeScan, VerificationError>)
    ensures match r
            case Ok(scan) => Scanned(m, |m.ranges|, scan)
            case Err(error) => !RangesClean(m, |m.ranges|) && FirstRangeFault(m, error)
    ensures r != Err(PhysicalSumOverflow)
  {
    var parsed: seq<ParsedRange> := [];
    var seen: set<u32> := {};
    var previousEnd: nat, physicalSum: u64, highestEnd: nat := 0, 0, 0;
    for index := 0 to |m.ranges|
      invariant Scanned(m, index, RangeScan(parsed, seen, physicalSum, highestEnd))
      invariant previousEnd == highestEnd
    {
      var checked := ValidateRange(m, index, seen, previousEnd);
      if checked.Err? {
        return Err(checked.error);
      }
      ScanExtends(m, index, RangeScan(parsed, seen, physicalSum, highestEnd), checked.value);
      seen := seen + {m.ranges[index].driverRun};
      var sum := CheckedAdd(physicalSum, m.ranges[index].length);
      if sum.None? {
        return Err(PhysicalSumOverflow);
      }
      physicalSum := sum.value;
      previousEnd := checked.value.end;
      highestEnd := Max(highestEnd, checked.value.end);
      parsed := parsed + [checked.value];
    }
    return Ok(RangeScan(parsed, seen, physicalSum, highestEnd));
  }

  method ValidateRanges(m: MapFile) returns (r: Result<seq<ParsedRange>, VerificationError>)
    ensures RangesVerdict(m, r)
    ensures r != Err(PhysicalSumOverflow)
  {
    if |m.ranges| == 0 {
      return Err(DriverRunDomainMismatch);
    }
    var scan := ScanRanges(m);
    if scan.Err? {
      return Err(scan.error);
    }
    if scan.value.physicalSum != m.physicalBytes {
      return Err(PhysicalSumMismatch(m.physicalBytes, scan.value.physicalSum));
    }
    if scan.value.highestEnd != m.logicalSize {
      return Err(HighestPhysicalEndMismatch(scan.value.highestEnd, m.logicalSize));
    }
    CleanRunsDistinct(m);
    DomainCheckIsPermutation(m.ranges);
    if |m.ranges| > U32_MAX + 1 || scan.value.seen != Below(|m.ranges|) {
      return Err(DriverRunDomainMismatch);
    }
    return Ok(scan.value.parsed);
  }

  lemma {:induction false} CleanRunsDistinct(m: MapFile)
    requires RangesClean(m, |m.ranges|)
    ensures forall i, j :: 0 <= i < j < |m.ranges| ==> m.ranges[i].driverRun != m.ranges[j].driverRun
  {
    forall i, j | 0 <= i < j < |m.ranges|
      ensures m.ranges[i].driverRun != m.ranges[j].driverRun
    {
      assert RangeFault(m, j) == None;
    }
  }

  /** Ranges pass exactly when they are sound. */
  lemma {:induction false} CleanIsSound(m: MapFile)
    requires |m.ranges| > 0
    ensures RangesSound(m) <==>
            && RangesClean(m, |m.ranges|) && RangeSum(m.ranges) == m.physicalBytes
            && EndOf(m.ranges[|m.ranges| - 1]) == m.logicalSize && DriverRunsPermute(m.ranges)
  {
    var n := |m.ranges|;
    if RangesSound(m) {
      forall i | 0 <= i < n
        ensures RangeFault(m, i) == None
      {
        if i > 0 {
          assert EndOf(m.ranges[i - 1]) <= StartOf(m.ranges[i]);
        }
      }
      var top :| 0 <= top < n && EndOf(m.ranges[top]) == m.logicalSize;
    }
    if RangesClean(m, n) {
      forall i | 0 <= i < n
        ensures m.ranges[i].length > 0 && m.ranges[i].ParseStart().Some? && EndOf(m.ranges[i]) <= m.logicalSize
      {
        assert RangeFault(m, i) == None;
      }
      forall i, j | 0 <= i < j < n
        ensures EndOf(m.ranges[i]) <= StartOf(m.ranges[j])
      {
        CleanRangesAscend(m, n, i, j);
      }
    }
  }

  /** `validate_ranges` accepts exactly the sound range tables. */
  lemma {:induction false} RangesAcceptedIffSound(m: MapFile, r: Result<seq<ParsedRange>, VerificationError>)
    requires RangesVerdict(m, r)
    ensures r.Ok? <==> RangesSound(m)
  {
    if |m.ranges| > 0 {
      CleanIsSound(m);
    }
  }

  // ---- unreadable spans ----

  function SpanStart(span: UnreadableEntry): nat {
    match span.ParseStart()
    case Some(start) => start
    case None => 0
  }

  function SpanEnd(span: UnreadableEntry): nat {
    SpanStart(span) + span.length
  }

  function SpanSumTo(spans: seq<UnreadableEntry>, n: nat): nat
    requires n <= |spans|
  {
    if n == 0 then 0 else SpanSumTo(spans, n - 1) + spans[n - 1].length
  }

  function SpanSum(spans: seq<UnreadableEntry>): nat {
    SpanSumTo(spans, |spans|)
  }

  predicate Contained(start: nat, end: nat, ranges: seq<ParsedRange>) {
    exists i :: 0 <= i < |ranges| && start >= ranges[i].start && end <= ranges[i].end
  }

  /** The first thing wrong with span `i`, given that nothing is wrong with those before it. */
  function SpanFault(m: MapFile, ranges: seq<ParsedRange>, i: nat): Option<VerificationError>
    requires i < |m.unreadable|
  {
    var span := m.unreadable[i];
    if span.ParseStart().None? || span.ParseNtstatus().None? then Some(ParseInt)
    else if span.length == 0 then Some(InvalidUnreadableSpan(i, SpanStart(span), span.length))
    else if SpanEnd(span) > U64_MAX then Some(UnreadableArithmeticOverflow(i))
    else if i > 0 && SpanStart(span) < SpanEnd(m.unreadable[i - 1]) then
      Some(UnreadableOverlap(SpanEnd(m.unreadable[i - 1]), SpanStart(span)))
    else if !Contained(SpanStart(span), SpanEnd(span), ranges) then
      Some(UnreadableOutsidePhysicalRun(i, SpanStart(span), SpanEnd(span)))
    else None
  }

  ghost predicate SpansClean(m: MapFile, ranges: seq<ParsedRange>, n: nat)
    requires n <= |m.unreadable|
  {
    forall i :: 0 <= i < n ==> SpanFault(m, ranges, i) == None
  }

  ghost predicate FirstSpanFault(m: MapFile, ranges: seq<ParsedRange>, error: VerificationError) {
    exists i :: 0 <= i < |m.unreadable| && SpansClean(m, ranges, i) && SpanFault(m, ranges, i) == Some(error)
  }

  /** What `validate_unreadable_spans` must answer. */
  ghost predicate SpansVerdict(m: MapFile, ranges: seq<ParsedRange>, r: Result<(), VerificationError>) {
    if !SpansClean(m, ranges, |m.unreadable|) then r.Err? && FirstSpanFault(m, ranges, r.error)
    else if SpanSum(m.unreadable) != m.unreadableBytes then
      r == Err(UnreadableSumMismatch(m.unreadableBytes, SpanSum(m.unreadable)))
    else r == Ok(())
  }

  /** The declarative description of the unreadable spans of a sound map. */
  ghost predicate SpansSound(m: MapFile) {
    && (forall i :: 0 <= i < |m.unreadable| ==>
          && m.unreadable[i].ParseStart().Some? && m.unreadable[i].ParseNtstatus().Some?
          && m.unreadable[i].length > 0)
    && (forall i, j :: 0 <= i < j < |m.unreadable| ==> SpanEnd(m.unreadable[i]) <= SpanStart(m.unreadable[j]))
    && (forall i :: 0 <= i < |m.unreadable| ==> InOneRange(m, m.unreadable[i]))
    && SpanSum(m.unreadable) == m.unreadableBytes
  }

  ghost predicate InOneRange(m: MapFile, span: UnreadableEntry) {
    exists k :: 0 <= k < |m.ranges| && StartOf(m.ranges[k]) <= SpanStart(span) && SpanEnd(span) <= EndOf(m.ranges[k])
  }

  lemma {:induction false} CleanSpansAscend(m: MapFile, ranges: seq<ParsedRange>, n: nat, i: nat, j: nat)
    requires n <= |m.unreadable| && SpansClean(m, ranges, n) && i < j < n
    ensures SpanEnd(m.unreadable[i]) <= SpanStart(m.unreadable[j])
    decreases j
  {
    assert SpanFault(m, ranges, j) == None && SpanFault(m, ranges, j - 1) == None;
    if i < j - 1 {
      CleanSpansAscend(m, ranges, n, i, j - 1);
    }
  }

  /** The running sum never exceeds the end of the previous span. */
  lemma {:induction false} SpanSumBelowEnd(m: MapFile, ranges: seq<ParsedRange>, n: nat)
    requires 0 < n <= |m.unreadable| && SpansClean(m, ranges, n)
    ensures SpanSumTo(m.unreadable, n) <= SpanEnd(m.unreadable[n - 1]) <= U64_MAX
  {
    assert SpanFault(m, ranges, n - 1) == None;
    if n > 1 {
      SpanSumBelowEnd(m, ranges, n - 1);
    }
  }

  lemma {:induction false} ContainedIsInOneRange(m: MapFile, ranges: seq<ParsedRange>, span: UnreadableEntry)
    requires |ranges| == |m.ranges| && ParsedAs(m.ranges, ranges)
    ensures Contained(SpanStart(span), SpanEnd(span), ranges) <==> InOneRange(m, span)
  {
    if Contained(SpanStart(span), SpanEnd(span), ranges) {
      var i :| 0 <= i < |ranges| && SpanStart(span) >= ranges[i].start && SpanEnd(span) <= ranges[i].end;
      assert StartOf(m.ranges[i]) <= SpanStart(span);
    }
    if InOneRange(m, span) {
      var k :| 0 <= k < |m.ranges| && StartOf(m.ranges[k]) <= SpanStart(span) && SpanEnd(span) <= EndOf(m.ranges[k]);
      assert SpanStart(span) >= ranges[k].start;
    }
  }

  lemma {:induction false} SoundSpanFits(m: MapFile, i: nat)
    requires RangesSound(m) && SpansSound(m) && i < |m.unreadable|
    ensures SpanEnd(m.unreadable[i]) <= m.logicalSize
  {
    assert InOneRange(m, m.unreadable[i]);
    var k :| 0 <= k < |m.ranges| && SpanEnd(m.unreadable[i]) <= EndOf(m.ranges[k]);
    assert EndOf(m.ranges[k]) <= m.logicalSize;
  }

  lemma {:induction false} SoundSpanHasNoFault(m: MapFile, ranges: seq<ParsedRange>, i: nat)
    requires RangesSound(m) && |ranges| == |m.ranges| && ParsedAs(m.ranges, ranges)
    requires SpansSound(m) && i < |m.unreadable|
    ensures SpanFault(m, ranges, i) == None
  {
    ContainedIsInOneRange(m, ranges, m.unreadable[i]);
    SoundSpanFits(m, i);
    assert i > 0 ==> SpanEnd(m.unreadable[i - 1]) <= SpanStart(m.unreadable[i]);
  }

  lemma {:induction false} CleanSpansAreSound(m: MapFile, ranges: seq<ParsedRange>)
    requires |ranges| == |m.ranges| && ParsedAs(m.ranges, ranges)
    requires SpansClean(m, ranges, |m.unreadable|) && SpanSum(m.unreadable) == m.unreadableBytes
    ensures SpansSound(m)
  {
    forall i | 0 <= i < |m.unreadable|
      ensures m.unreadable[i].ParseStart().Some? && m.unreadable[i].ParseNtstatus().Some?
      ensures m.unreadable[i].length > 0 && InOneRange(m, m.unreadable[i])
    {
      assert SpanFault(m, ranges, i) == None;
      ContainedIsInOneRange(m, ranges, m.unreadable[i]);
    }
    forall i, j | 0 <= i < j < |m.unreadable|
      ensures SpanEnd(m.unreadable[i]) <= SpanStart(m.unreadable[j])
    {
      CleanSpansAscend(m, ranges, |m.unreadable|, i, j);
    }
  }

  /** `validate_unreadable_spans` accepts exactly the sound span lists. */
  lemma {:induction false} SpansAcceptedIffSound(m: MapFile, ranges: seq<ParsedRange>,
                                                 r: Result<(), VerificationError>)
    requires RangesSound(m) && |ranges| == |m.ranges| && ParsedAs(m.ranges, ranges)
    requires SpansVerdict(m, ranges, r)
    ensures r.Ok? <==> SpansSound(m)
  {
    if SpansSound(m) {
      forall i | 0 <= i < |m.unreadable|
        ensures SpanFault(m, ranges, i) == None
      {
        SoundSpanHasNoFault(m, ranges, i);
      }
    }
    if r.Ok? {
      CleanSpansAreSound(m, ranges);
    }
  }

  method ValidateSpan(m: MapFile, ranges: seq<ParsedRange>, index: nat, previousEnd: nat)
    returns (r: Result<nat, VerificationError>)
    requires index < |m.unreadable|
    requires index > 0 ==> previousEnd == SpanEnd(m.unreadable[index - 1])
    ensures match SpanFault(m, ranges, index)
            case Some(error) => r == Err(error)
            case None => r == Ok(SpanEnd(m.unreadable[index]))
  {
    var span := m.unreadable[index];
    var start := span.ParseStart();
    if start.None? {
      return Err(ParseInt);
    }
    var ntstatus := span.ParseNtstatus();
    if ntstatus.None? {
      return Err(ParseInt);
    }
    if span.length == 0 {
      return Err(InvalidUnreadableSpan(index, start.value, span.length));
    }
    if span.length > U64_MAX - start.value {
      return Err(UnreadableArithmeticOverflow(index));
    }
    var end := start.value + span.length;
    if index != 0 && start.value < previousEnd {
      return Err(UnreadableOverlap(previousEnd, start.value));
    }
    if !Contained(start.value, end, ranges) {
      return Err(UnreadableOutsidePhysicalRun(index, start.value, end));
    }
    return Ok(end);
  }

  lemma {:induction false} NextSpanBounds(m: MapFile, ranges: seq<ParsedRange>, n: nat)
    requires n < |m.unreadable| && SpansClean(m, ranges, n) && SpanFault(m, ranges, n) == None
    ensures SpansClean(m, ranges, n + 1)
    ensures SpanSumTo(m.unreadable, n) + m.unreadable[n].length == SpanSumTo(m.unreadable, n + 1) <= U64_MAX
  {
    assert SpansClean(m, ranges, n + 1);
    SpanSumBelowEnd(m, ranges, n + 1);
  }

  lemma {:induction false} FaultDecides(m: MapFile, ranges: seq<ParsedRange>, n: nat, error: VerificationError)
    requires n < |m.unreadable| && SpansClean(m, ranges, n) && SpanFault(m, ranges, n) == Some(error)
    ensures SpansVerdict(m, ranges, Err(error))
  {
    assert !SpansClean(m, ranges, |m.unreadable|);
  }

  method ValidateUnreadableSpans(m: MapFile, ranges: seq<ParsedRange>) returns (r: Result<(), VerificationError>)
    ensures SpansVerdict(m, ranges, r)
    ensures r != Err(UnreadableSumOverflow)
  {
    var previousEnd: nat, unreadableSum: u64 := 0, 0;
    for index := 0 to |m.unreadable|
      invariant SpansClean(m, ranges, index)
      invariant previousEnd == if index == 0 then 0 else SpanEnd(m.unreadable[index - 1])
      invariant unreadableSum == SpanSumTo(m.unreadable, index)
    {
      var checked := ValidateSpan(m, ranges, index, previousEnd);
      if checked.Err? {
        FaultDecides(m, ranges, index, checked.error);
        return Err(checked.error);
      }
      NextSpanBounds(m, ranges, index);
      var sum := CheckedAdd(unreadableSum, m.unreadable[index].length);
      if sum.None? {
        return Err(UnreadableSumOverflow);
      }
      unreadableSum := sum.value;
      previousEnd := checked.value;
    }
    if unreadableSum != m.unreadableBytes {
      return Err(UnreadableSumMismatch(m.unreadableBytes, unreadableSum));
    }
    return Ok(());
  }

  // ---- zero-backed representation ----

  /** Offset of the first non-zero byte of `bytes`, if any. */
  ghost predicate IsFirstNonZero(bytes: seq<byte>, found: Option<nat>) {
    match found
    case None => AllZero(bytes)
    case Some(k) => k < |bytes| && bytes[k] != 0 && AllZero(bytes[..k])
  }

  method FirstNonZero(buffer: seq<byte>) returns (found: Option<nat>)
    ensures IsFirstNonZero(buffer, found)
  {
    for i := 0 to |buffer|
      invariant forall j :: 0 <= j < i ==> buffer[j] == 0
    {
      if buffer[i] != 0 {
        return Some(i);
      }
    }
    return None;
  }

  /** Which requests to the system fail, and how much a read delivers. */
  datatype FileAccess = FileAccess(fails: nat -> bool, pieces: nat -> nat) {
    ghost predicate Failing() {
      exists k :: fails(k)
    }
  }

  /** Reading that must not meet the end of the file. */
  method ReadExact(file: seq<byte>, position: nat, count: nat) returns (buffer: seq<byte>)
    requires position + count <= |file|
    ensures buffer == file[position..position + count]
  {
    buffer := file[position..position + count];
  }

  lemma {:induction false} SliceOfSlice(raw: seq<byte>, start: nat, length: nat, from: nat, count: nat)
    requires start + length <= |raw| && from + count <= length
    ensures raw[start..start + length][from..from + count] == raw[start + from..start + from + count]
  {
    var outer, inner := raw[start..start + length][from..from + count], raw[start + from..start + from + count];
    forall k | 0 <= k < count
      ensures outer[k] == inner[k]
    {
      assert outer[k] == raw[start..start + length][from + k];
    }
  }

  /** Scans one span in chunks; every byte asked for lies inside the file. */
  method ScanSpan(raw: seq<byte>, start: nat, length: nat, files: FileAccess, tick: nat)
    returns (found: Result<Option<nat>, VerificationError>, next: nat)
    requires start + length <= |raw|
    ensures found.Ok? ==> IsFirstNonZero(raw[start..start + length], found.value)
    ensures found.Err? ==> found.error == Io && files.Failing()
  {
    var span := raw[start..start + length];
    var remaining: nat, relativeOffset: nat := length, 0;
    next := tick;
    while remaining != 0
      invariant relativeOffset + remaining == length
      invariant AllZero(span[..relativeOffset])
    {
      if files.fails(next) {
        return Err(Io), next;
      }
      next := next + 1;
      var requested := Min(remaining, ZERO_CHECK_CHUNK_BYTES);
      var buffer := ReadExact(raw, start + relativeOffset, requested);
      SliceOfSlice(raw, start, length, relativeOffset, requested);
      var nonZero := FirstNonZero(buffer);
      if nonZero.Some? {
        assert span[..relativeOffset + nonZero.value] == span[..relativeOffset] + buffer[..nonZero.value];
        return Ok(Some(relativeOffset + nonZero.value)), next;
      }
      assert span[..relativeOffset + requested] == span[..relativeOffset] + buffer;
      remaining := remaining - requested;
      relativeOffset := relativeOffset + requested;
    }
    assert span[..relativeOffset] == span;
    return Ok(None), next;
  }

  ghost predicate SpansInFile(raw: seq<byte>, spans: seq<UnreadableEntry>) {
    forall i :: 0 <= i < |spans| ==> spans[i].ParseStart().Some? && SpanEnd(spans[i]) <= |raw|
  }

  function BytesOf(raw: seq<byte>, span: UnreadableEntry): seq<byte>
    requires SpanEnd(span) <= |raw|
  {
    raw[SpanStart(span)..SpanEnd(span)]
  }

  /** Every declared span reads as zeros. */
  ghost predicate ZeroBacked(raw: seq<byte>, spans: seq<UnreadableEntry>)
    requires SpansInFile(raw, spans)
  {
    forall i :: 0 <= i < |spans| ==> AllZero(BytesOf(raw, spans[i]))
  }

  /** The error names the least non-zero offset of the first offending span. */
  ghost predicate RepresentationVerdict(raw: seq<byte>, spans: seq<UnreadableEntry>, r: Result<(), VerificationError>)
    requires SpansInFile(raw, spans)
  {
    match r
    case Ok(_) => ZeroBacked(raw, spans)
    case Err(error) =>
      exists i, offset: nat ::
        && 0 <= i < |spans|
        && ZeroBacked(raw, spans[..i])
        && IsFirstNonZero(BytesOf(raw, spans[i]), Some(offset))
        && error == UnreadableRepresentationMismatch(SpanStart(spans[i]), offset)
  }

  /** Opens the file if there are spans, and scans them one by one. */
  method VerifyUnreadableRepresentation(raw: seq<byte>, spans: seq<UnreadableEntry>, files: FileAccess, tick: nat)
    returns (r: Result<(), VerificationError>, next: nat)
    requires SpansInFile(raw, spans)
    ensures r == Err(Io) ==> files.Failing()
    ensures r != Err(Io) ==> RepresentationVerdict(raw, spans, r) && (r.Ok? <==> ZeroBacked(raw, spans))
  {
    next := tick;
    if |spans| == 0 {
      return Ok(()), next;
    }
    if files.fails(next) {
      return Err(Io), next;
    }
    for index := 0 to |spans|
      invariant ZeroBacked(raw, spans[..index])
    {
      var span := spans[index];
      var start := span.ParseStart();
      if start.None? {
        return Err(ParseInt), next;
      }
      // The seek to the span.
      next := next + 1;
      if files.fails(next) {
        return Err(Io), next;
      }
      var nonZero;
      nonZero, next := ScanSpan(raw, start.value, span.length, files, next + 1);
      if nonZero.Err? {
        return Err(nonZero.error), next;
      }
      if nonZero.value.Some? {
        assert IsFirstNonZero(BytesOf(raw, spans[index]), Some(nonZero.value.value));
        assert !AllZero(BytesOf(raw, spans[index]));
        return Err(UnreadableRepresentationMismatch(start.value, nonZero.value.value)), next;
      }
      assert AllZero(BytesOf(raw, spans[index]));
    }
    return Ok(()), next;
  }

  // ---- the hash of the file ----

  lemma {:induction false} ZerosJoin(a: nat, b: nat)
    ensures Zeros(a) + Zeros(b) == Zeros(a + b)
  {
  }

  /** Opens the file and reads it in whatever pieces it is handed over, up to the empty one at its end. */
  method AbsorbFile(raw: seq<byte>, files: FileAccess, tick: nat)
    returns (absorbed: Result<seq<byte>, VerificationError>, next: nat)
    ensures absorbed == Ok(raw) || (absorbed == Err(Io) && files.Failing())
  {
    next := tick;
    if files.fails(next) {
      return Err(Io), next;
    }
    next := next + 1;
    var hashed: seq<byte>, totalRead: nat := [], 0;
    while totalRead < |raw|
      invariant totalRead <= |raw| && hashed == raw[..totalRead]
    {
      if files.fails(next) {
        return Err(Io), next;
      }
      var n := Min(Max(1, files.pieces(next)), Min(|raw| - totalRead, HASH_READ_BYTES));
      hashed := hashed + raw[totalRead..totalRead + n];
      assert raw[..totalRead] + raw[totalRead..totalRead + n] == raw[..totalRead + n];
      totalRead, next := totalRead + n, next + 1;
    }
    if files.fails(next) {
      return Err(Io), next;
    }
    assert raw[..totalRead] == raw;
    return Ok(hashed), next + 1;
  }

  method AbsorbZeros(before: seq<byte>, count: nat) returns (absorbed: seq<byte>)
    ensures absorbed == before + Zeros(count)
  {
    absorbed := before;
    var remaining: nat := count;
    while remaining > 0
      invariant remaining <= count && absorbed == before + Zeros(count - remaining)
    {
      var chunk := Min(remaining, HASH_READ_BYTES);
      ZerosJoin(count - remaining, chunk);
      absorbed := absorbed + Zeros(chunk);
      remaining := remaining - chunk;
    }
  }

  /** The hash of the file, padded with zeros up to the logical size. */
  method CalculateLogicalRawSha256(raw: seq<byte>, logicalSize: nat, digest: seq<byte> -> Digest, files: FileAccess,
                                   tick: nat)
    returns (hex: Result<string, VerificationError>, next: nat)
    ensures hex.Ok? && |raw| <= logicalSize ==> hex.value == HexEncode(digest(raw + Zeros(logicalSize - |raw|)))
    ensures hex.Ok? && |raw| > logicalSize ==> hex.value == HexEncode(digest(raw))
    ensures hex.Err? ==> hex.error == Io && files.Failing()
  {
    var absorbed;
    absorbed, next := AbsorbFile(raw, files, tick);
    if absorbed.Err? {
      return Err(absorbed.error), next;
    }
    var bytes := absorbed.value;
    assert raw + Zeros(0) == raw;
    if |raw| < logicalSize {
      bytes := AbsorbZeros(bytes, logicalSize - |raw|);
    }
    return Ok(HexEncode(digest(bytes))), next;
  }

  // ---- the bundle ----

  function ExpectedStatus(m: MapFile): string {
    if m.topologyChanged || m.unreadableBytes != 0 then "incomplete" else "complete"
  }

  function LowerCase(c: char): char {
    if 'A' <= c <= 'Z' then (c as int + 32) as char else c
  }

  predicate EqIgnoreAsciiCase(a: string, b: string) {
    |a| == |b| && forall i :: 0 <= i < |a| ==> LowerCase(a[i]) == LowerCase(b[i])
  }

  /** The characters with the Unicode property White_Space. */
  predicate IsWhitespace(c: char) {
    var n := c as int;
    || 0x9 <= n <= 0xD || n == 0x20 || n == 0x85 || n == 0xA0 || n == 0x1680 || 0x2000 <= n <= 0x200A
    || n == 0x2028 || n == 0x2029 || n == 0x202F || n == 0x205F || n == 0x3000
  }

  function UpToSpace(s: string): string {
    if |s| == 0 || IsWhitespace(s[0]) then "" else [s[0]] + UpToSpace(s[1..])
  }

  /** The first word of a text, empty if it has none. */
  function FirstWord(s: string): string {
    if |s| > 0 && IsWhitespace(s[0]) then FirstWord(s[1..]) else UpToSpace(s)
  }

  predicate SidecarMatches(sidecar: string, computed: string) {
    IsSha256Hex(FirstWord(sidecar)) && EqIgnoreAsciiCase(computed, FirstWord(sidecar))
  }

  lemma {:induction false} SoundSpansInFile(raw: seq<byte>, m: MapFile)
    requires |raw| == m.logicalSize && RangesSound(m) && SpansSound(m)
    ensures SpansInFile(raw, m.unreadable)
  {
    forall i | 0 <= i < |m.unreadable|
      ensures SpanEnd(m.unreadable[i]) <= |raw|
    {
      SoundSpanFits(m, i);
    }
  }

  /** What a map that names its own checks must satisfy, apart from the files. */
  ghost predicate MapSound(m: MapFile) {
    && m.producer == "PhylaRAM"
    && (m.schema == "phylaram-map-1" || m.schema == "phylaram-map-2")
    && IsSha256Hex(m.sha256)
    && RangesSound(m)
    && SpansSound(m)
    && m.acquiredBytes + m.unreadableBytes == m.physicalBytes
    && m.status == ExpectedStatus(m)
  }

  /** The declarative description of a sound bundle. */
  ghost predicate BundleSound(digest: seq<byte> -> Digest, raw: seq<byte>, m: MapFile, sidecar: Option<string>) {
    && MapSound(m)
    && |raw| == m.logicalSize
    && (SoundSpansInFile(raw, m); ZeroBacked(raw, m.unreadable))
    && EqIgnoreAsciiCase(HexEncode(digest(raw)), m.sha256)
    && (sidecar.Some? ==> SidecarMatches(sidecar.value, HexEncode(digest(raw))))
  }

  /** The text of a file, if the file is there and is text. */
  function TextOf(codec: Codec, disk: Disk, path: string): Option<string> {
    if path in disk then codec.fromUtf8(disk[path]) else None
  }

  /** The three files are there and readable, and make up a sound bundle. */
  ghost predicate Acceptable(codec: Codec, disk: Disk, rawPath: string, mapPath: string, shaPath: Option<string>,
                             m: MapFile) {
    && TextOf(codec, disk, mapPath).Some?
    && codec.parse(TextOf(codec, disk, mapPath).value) == Some(m)
    && rawPath in disk
    && (shaPath.Some? ==> TextOf(codec, disk, shaPath.value).Some?)
    && BundleSound(codec.digest, disk[rawPath], m,
                   if shaPath.Some? then TextOf(codec, disk, shaPath.value) else None)
  }

  /** The checks between the header of the map and the contents of the image. */
  method ValidateAccounts(m: MapFile) returns (r: Result<(), VerificationError>)
    ensures r.Ok? <==> RangesSound(m) && SpansSound(m)
                       && m.acquiredBytes + m.unreadableBytes == m.physicalBytes && m.status == ExpectedStatus(m)
    ensures r != Err(PhysicalSumOverflow) && r != Err(UnreadableSumOverflow)
    ensures r == Err(AccountingOverflow) ==> m.acquiredBytes + m.unreadableBytes > U64_MAX
  {
    var ranges := ValidateRanges(m);
    RangesAcceptedIffSound(m, ranges);
    if ranges.Err? {
      RangesErrorNotAccounting(m, ranges);
      return Err(ranges.error);
    }
    var spans := ValidateUnreadableSpans(m, ranges.value);
    SpansAcceptedIffSound(m, ranges.value, spans);
    if spans.Err? {
      SpansErrorNotAccounting(m, ranges.value, spans);
      return spans;
    }
    var accounted := CheckedAdd(m.acquiredBytes, m.unreadableBytes);
    if accounted.None? {
      return Err(AccountingOverflow);
    }
    if accounted.value != m.physicalBytes {
      return Err(AccountingMismatch(m.physicalBytes, accounted.value));
    }
    if m.status != ExpectedStatus(m) {
      return Err(InvalidStatus(m.status));
    }
    return Ok(());
  }

  lemma {:induction false} RangesErrorNotAccounting(m: MapFile, r: Result<seq<ParsedRange>, VerificationError>)
    requires RangesVerdict(m, r) && r.Err?
    ensures r.error != AccountingOverflow && r.error != PhysicalSumOverflow && r.error != UnreadableSumOverflow
  {
  }

  lemma {:induction false} SpansErrorNotAccounting(m: MapFile, ranges: seq<ParsedRange>,
                                                   r: Result<(), VerificationError>)
    requires SpansVerdict(m, ranges, r) && r.Err?
    ensures r.error != AccountingOverflow && r.error != PhysicalSumOverflow && r.error != UnreadableSumOverflow
  {
  }

  /** Accepts exactly the acceptable bundles, and returns their map, unless a request to the system fails. */
  method VerifyBundle(codec: Codec, disk: Disk, rawPath: string, mapPath: string, shaPath: Option<string>,
                      files: FileAccess)
    returns (r: Result<MapFile, VerificationError>)
    ensures r.Ok? ==> Acceptable(codec, disk, rawPath, mapPath, shaPath, r.value)
    ensures r.Err? ==> || (r == Err(Io) && files.Failing())
                       || forall m :: !Acceptable(codec, disk, rawPath, mapPath, shaPath, m)
    ensures r != Err(PhysicalSumOverflow) && r != Err(UnreadableSumOverflow)
  {
    // The map is read first, then the size of the image.
    if files.fails(0) {
      return Err(Io);
    }
    var mapText := TextOf(codec, disk, mapPath);
    if mapText.None? {
      return Err(Io);
    }
    var parsed := codec.parse(mapText.value);
    if parsed.None? {
      return Err(Json);
    }
    var m := parsed.value;
    if m.producer != "PhylaRAM" {
      return Err(InvalidProducer(m.producer));
    }
    if m.schema != "phylaram-map-1" && m.schema != "phylaram-map-2" {
      return Err(InvalidSchema(m.schema));
    }
    if !IsSha256Hex(m.sha256) {
      return Err(InvalidHashEncoding(m.sha256));
    }
    if files.fails(1) || rawPath !in disk {
      return Err(Io);
    }
    var raw := disk[rawPath];
    if |raw| != m.logicalSize {
      return Err(SizeMismatch(m.logicalSize, |raw|));
    }
    var accounts := ValidateAccounts(m);
    if accounts.Err? {
      return Err(accounts.error);
    }
    r := VerifyContents(codec, disk, raw, m, shaPath, files, 2);
  }

  /** What is left to check once the map is sound. */
  ghost predicate ContentsSound(codec: Codec, disk: Disk, raw: seq<byte>, m: MapFile, shaPath: Option<string>) {
    && (shaPath.Some? ==> TextOf(codec, disk, shaPath.value).Some?)
    && BundleSound(codec.digest, raw, m, if shaPath.Some? then TextOf(codec, disk, shaPath.value) else None)
  }

  /** The checks that read the image and the sidecar. */
  method VerifyContents(codec: Codec, disk: Disk, raw: seq<byte>, m: MapFile, shaPath: Option<string>,
                        files: FileAccess, tick: nat)
    returns (r: Result<MapFile, VerificationError>)
    requires MapSound(m) && |raw| == m.logicalSize
    ensures r.Ok? ==> r.value == m && ContentsSound(codec, disk, raw, m, shaPath)
    ensures r.Err? ==> (r == Err(Io) && files.Failing()) || !ContentsSound(codec, disk, raw, m, shaPath)
    ensures r != Err(PhysicalSumOverflow) && r != Err(UnreadableSumOverflow)
  {
    SoundSpansInFile(raw, m);
    var zeroBacked, next := VerifyUnreadableRepresentation(raw, m.unreadable, files, tick);
    if zeroBacked.Err? {
      return Err(zeroBacked.error);
    }
    var computed;
    computed, next := CalculateLogicalRawSha256(raw, m.logicalSize, codec.digest, files, next);
    if computed.Err? {
      return Err(computed.error);
    }
    assert raw + Zeros(0) == raw;
    if !EqIgnoreAsciiCase(computed.value, m.sha256) {
      return Err(HashMismatch(m.sha256, computed.value));
    }
    if shaPath.Some? {
      r := ValidateSidecar(codec, disk, shaPath.value, computed.value, files, next, m);
    } else {
      r := Ok(m);
    }
  }

  /** The sidecar is read, and its first word must be the digest. */
  method ValidateSidecar(codec: Codec, disk: Disk, shaPath: string, computed: string, files: FileAccess, tick: nat,
                         m: MapFile)
    returns (r: Result<MapFile, VerificationError>)
    ensures r.Ok? ==> && r.value == m && TextOf(codec, disk, shaPath).Some?
                      && SidecarMatches(TextOf(codec, disk, shaPath).value, computed)
    ensures r.Err? ==> || (r == Err(Io) && files.Failing()) || TextOf(codec, disk, shaPath).None?
                       || !SidecarMatches(TextOf(codec, disk, shaPath).value, computed)
    ensures r.Ok? || r == Err(Io) || r.error.SidecarMismatch?
  {
    var sidecar := TextOf(codec, disk, shaPath);
    if files.fails(tick) || sidecar.None? {
      return Err(Io);
    }
    if !SidecarMatches(sidecar.value, computed) {
      return Err(SidecarMismatch(FirstWord(sidecar.value), computed));
    }
    return Ok(m);
  }
}
