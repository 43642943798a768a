# PhylaRAM: the evidence pipeline, modelled and proved

PhylaRAM freezes the table of physical memory runs in a kernel driver, reads the runs from user mode
into a flat image, records what could not be read in a provenance map, hashes the logical image, and
publishes image, map and hash as one bundle that an independent program verifies offline. Each stage
makes a claim the next one relies on. This project models the stages and proves the claims, and then
proves that they compose: what the producer publishes the verifier accepts, exactly when nothing was
lost with one status on both sides of a seam between two touching runs.

Verify with `dafny verify dfyconfig.toml` (Dafny 4.11).

## How it is built

| file | what it models |
|---|---|
| `Words`, `Runs`, `Segments` | 64-bit words and the page mask; run geometry; the history of bytes obtained and bytes lost, with the image, the totals and the unreadable spans as functions of it |
| `Engine` | the read policy as a machine over device answers; everything true of every sequence of answers |
| `StaticMemory`, `StaticCapture` | memory that holds still: the fast path against the page-by-page scan, up to the summary of a whole acquisition through the driver |
| `Files`, `RawWriter`, `Hashing`, `Devices` | a file system with exclusive handles that may refuse any operation and remembers every state of its disk; the flat image; the hasher; a device that may answer anything, each answer depending on all that was asked before; the cancellation flag. Which operations are refused and when the flag is raised are arbitrary inputs, so that nothing refused is something a caller can state beforehand |
| `Acquire` | the acquisition loops, driving image, hash, counters and spans in lockstep with the machine |
| `Hex`, `MapFiles`, `MapWriter`, `EvidenceFiles`, `Transaction` | the map record and its hexadecimal fields, the sidecars, the six paths, and the transaction |
| `Verifier` | the offline verifier against a declarative description of a sound bundle |
| `Driver`, `DeviceSession` | the driver's file context, pool and callbacks; the session object that validates and sorts the run table |
| `EndToEnd`, `Seams` | the composition; what touching runs do to it, decided from the run table and the failing pages |
| `Zdmp`, `Adler`, `E01` | the packed crash dump and its converter; the chunked container and its checksum |

Code that changes things step by step is modelled by methods and classes whose contracts tie the new
state to functions of the old one; the laws are lemmas about those functions. `Limits` holds the page
size and the largest transfer; both are arbitrary (the page a power of two), so the results hold for
4096 bytes and 16 MiB. SHA-256, the JSON printer and parser and UTF-8 are arbitrary functions; the only
assumption, made where files are read back, is that parsing gives back the maps the producer writes, and UTF-8
the texts (`MapWriter.Lawful`).

## What the code does not do, and exactly when it does

- A span may run across two touching runs: the engine merges by address and status only, the session
  object lets touching runs through, and the verifier wants each span inside one run. The verifier then
  rejects a bundle the producer called finished. Over the bundles of a run table all are accepted exactly
  when no two of its entries touch (`Seams.AlwaysAcceptedIffNoneTouch`; `Seams.TouchingTableIsRejected`
  gives the rejected bundle). Over memory that holds still a bundle is accepted exactly when at no seam the
  pages on both sides fail with one status (`Seams.StaticBundleAcceptedIffNoSeamFails`).
- The packed dump computes offsets modulo 2^64. `Zdmp.OffsetsAreABijectionIffPacked` says exactly when
  they are right, `Zdmp.WrapExample` gives a table whose last byte lands in the header.
- The container notes chunk offsets in 32 bits; the table is right exactly up to 65532 chunks
  (`E01.TableExactIffSmall`). Closing ignores what the three calls that complete the section of the
  chunks answer, and still reports success; `E01.ClosedIffCompleted` says exactly when the file is right,
  whatever part of the header was written.
- The parser of hexadecimal fields trims repeated prefixes, but an upper-case prefix shields a lower-case
  one behind it: digits behind any word of prefixes are read exactly when no lower-case prefix stands behind
  an upper-case one (`Hex.PrefixedDigitsParseIffInOrder`, `Hex.ShieldedPrefixIsRejected` for the shortest
  word). `Hex.ParsesIffReads` describes all texts that are read.
- Cleanup ignores failed deletions. If closed files can be deleted (`Files.FileSystem.DeletesWork`) a failed
  capture leaves the disk as it was; if some cannot, staging files or sidecars may stay behind. That the
  image never carries its final name without the complete bundle holds in any case.
- `docs/FORENSIC_INTEGRITY.md` section 5 lists the staged image before the initialization of the hash;
  the code initializes the hash first, and the model follows the code.

## Model

| member | source | states |
|---|---|---|
| Words.CheckedAdd | cli/acquire.cpp:16-23 | the sum is given exactly when it fits in 64 bits |
| Words.MaskIsModulo | cli/acquire.cpp:221-223 | masking an address with a power of two less one is the remainder, so the bytes up to the page boundary are what the loop takes them for |
| Segments.CoalesceCanonical | cli/acquire.cpp:25-47 | over an ascending history the recorded spans ascend, are disjoint and are maximal: neighbours leave a gap or differ in status |
| Segments.CoalesceCovers | cli/acquire.cpp:25-47 | the spans cover a byte with a status exactly when a read lost that byte with that status |
| Segments.CoalesceBytes | cli/acquire.cpp:25-47 | the span lengths add up to the bytes lost |
| Segments.CanonicalUnique | cli/acquire.cpp:34-45 | two canonical span lists that cover the same bytes with the same statuses are the same list |
| Engine.AlwaysLocated | cli/acquire.cpp:151-287 | after any accepted answers the walk stands inside a run and inside its window, or has passed all runs |
| Engine.ReadBound | cli/acquire.cpp:156-287 | however the device answers, there are at most two reads per byte of run length, a rejected last one included |
| Engine.Conservation | cli/acquire.cpp:182-201 | at every point bytes obtained plus bytes lost are the bytes passed, as mathematical integers |
| Engine.FinishedConserves | cli/evidence_transaction.cpp:181-189 | at the end bytes obtained plus bytes lost are the sum of the run lengths, for any run table |
| Engine.FinishedPartitions | cli/acquire.cpp:151-287 | over sorted disjoint runs every byte of the runs is in exactly one segment, obtained or lost, and no other byte is in any |
| Engine.EverySegmentJustified | cli/acquire.cpp:214-285 | obtained bytes are the bytes of an accepted read; a lost stretch is a read inside one page that returned nothing, with its status |
| Engine.EveryReadInBounds | cli/acquire.cpp:162-180 | every accepted read names one run as the driver does, stays inside it and within the transfer size, and was answered for its own address |
| StaticMemory.FastEqualsNaive | cli/acquire.cpp:157-287 | over static memory bulk reading with page isolation gives the image, the span list and the totals of the page-by-page scan, for any alignment, transfer size and fault pattern |
| StaticMemory.UnreadableIsFaultyPages | cli/acquire.cpp:202-285 | over static memory a populated byte is recorded unreadable with a status exactly when its page fails with that status |
| StaticCapture.StaticMemoryHasOracle | driver/memory.c:52-62 | static memory behind the driver is one of the devices the engine is proved against |
| StaticCapture.CaptureEqualsNaive | cli/acquire.cpp:104-375 | the summary and the image of a finished acquisition of static memory through the driver are those of the page-by-page scan |
| StaticCapture.NothingUnreadableIffNoFault | cli/evidence_transaction.cpp:245-248 | the summary reports no unreadable bytes exactly when no populated address is in a failing page |
| Hashing.Sha256.Update | cli/sha256.cpp:77-105 | however the input is cut into chunks, exactly its bytes are absorbed; failure means a refused system call or a missing initialization |
| Hashing.Sha256.UpdateZeros | cli/sha256.cpp:107-124 | exactly that many zeros are absorbed |
| Hashing.Sha256.Finish | cli/sha256.cpp:126-152 | gives the lower-case text of the digest of everything absorbed, and spends the object |
| Hashing.DigestEncodesToSha256Hex | cli/map.cpp:64-73 | a digest printed by the hasher passes the syntax check of the map writer |
| RawWriters.RawWriter.PreflightAndOpen | cli/raw_writer.cpp:36-155 | on success there is one new file, all zeros, of the logical size; on failure the disk is as before if closed files can be deleted, and there was a reason |
| RawWriters.RawWriter.WriteAt | cli/raw_writer.cpp:157-200 | however short the system's writes, exactly the data are placed at their offset; it fails only out of bounds, closed, or by a refused system call |
| RawWriters.RawWriter.FlushAndClose | cli/raw_writer.cpp:202-219 | the handle is given up and the file left as it is, whether or not the flush succeeds |
| AcquireEngine.Acquisition.HashZerosTo | cli/acquire.cpp:132-143 | the hash advances to the address over zeros, and refuses to go backwards |
| AcquireEngine.Acquisition.AddUnreadable | cli/acquire.cpp:25-47 | the span list and the unreadable total are those of the history with the lost stretch added |
| AcquireEngine.Acquisition.ReadOnce | cli/acquire.cpp:169-180 | one read of the policy is asked; its answer is taken exactly when it passes the result filter |
| AcquireEngine.Acquisition.IsolatePage | cli/acquire.cpp:214-285 | one page read moves on inside the window; a whole page leads back to bulk reading, a part of it stays in the window, none of it is recorded unreadable |
| AcquireEngine.Acquisition.IsolateWindow | cli/acquire.cpp:209-286 | the loop makes progress with every read, never passes the end of the window and leaves the walk in bulk reading |
| AcquireEngine.Acquisition.ReadBulk | cli/acquire.cpp:162-212 | one bulk read takes what came back and opens a window exactly when it came back short |
| AcquireEngine.Acquisition.AcquireRun | cli/acquire.cpp:151-287 | the loop over one run ends at its end, with image, hash, counters and spans those of the history |
| AcquireEngine.GoodNeverContradicted | cli/acquire.cpp:16-23 | over sorted disjoint runs inside the image no device can make a checked addition, the hash cursor or the bounds check fail |
| AcquireEngine.Acquire | cli/acquire.cpp:104-375 | however it ends, the calls were a query, the reads of the policy in order and at most one call that concludes them; on success the reads went to the end and one end call followed, the summary tells of them alone, and hash and image hold the same bytes, zeros where nothing was obtained; failure is an interruption, a rejected answer or a bad run table |
| AcquireEngine.ReadsBounded | cli/acquire.cpp:151-287 | an acquisition that succeeded, was cancelled, rejected or contradicted has made at most two reads per byte of run length, none without a usable topology |
| Hex.Hex64RoundTrip | cli/map.cpp:49-54 | every 64-bit value survives printing and parsing |
| Hex.Hex32RoundTrip | cli/map.cpp:56-62 | every 32-bit value survives printing with padding and parsing |
| Hex.StatusRoundTrip | cli/map.cpp:189-192 | every signed status survives reinterpretation, printing with eight digits and parsing |
| Hex.PrefixedDigitsParseIffInOrder | tools/phylaram-verify/src/schema.rs:11-14 | digits behind any word of prefixes give their value exactly when there are any, they fit and no lower-case prefix stands behind an upper-case one; else the field is rejected |
| Hex.ParsesIffReads | tools/phylaram-verify/src/schema.rs:11-14 | the texts read as a value are exactly lower-case prefixes, then upper-case ones, perhaps a plus sign, then digits of that value, which must fit |
| Hex.ShieldedPrefixIsRejected | tools/phylaram-verify/src/schema.rs:11-14 | the shortest word that shields: an upper-case prefix in front of a lower-case one is rejected by both parsers |
| MapWriter.WriteAtomicString | cli/map.cpp:75-116 | the file is there with exactly the content, or not at all if closed files can be deleted; it fails only when the name is taken or a file operation is refused; no other file is touched at any moment |
| MapWriter.WriteMapJson | cli/map.cpp:120-202 | a map is written only for a completed, balanced summary with a well-formed digest, and holds the record of that summary; for such a summary it fails only when the name is taken or a file operation is refused |
| MapWriter.WriteSha256Sidecar | cli/map.cpp:204-218 | the sidecar holds a well-formed digest and the file name; it fails only for a malformed digest, a name that cannot be written down, a taken path or a refused file operation |
| EvidenceFiles.PathsDistinct | cli/evidence_transaction.cpp:16-26 | the six paths of any output path are six different files |
| EvidenceFiles.RemoveStagingFiles | cli/evidence_transaction.cpp:40-45 | only staging files go; they are all gone if closed files can be deleted |
| EvidenceFiles.RemoveFinalizedSidecars | cli/evidence_transaction.cpp:47-51 | only published sidecars go; both are gone if closed files can be deleted |
| EvidenceFiles.Publish | cli/evidence_transaction.cpp:209-243 | from the staged bundle to exactly the three published files, or, after a refused file operation and only then, back to the disk before; the image has its final name only after the last step |
| Transaction.StageImage | cli/evidence_transaction.cpp:95-189 | ends with the closed image file of a finished, balanced acquisition and nothing else, or with the disk as before; it fails only when something was refused, the flag was raised or the device's answers rule it out, and is cancelled only when the flag was raised |
| Transaction.StageSidecars | cli/evidence_transaction.cpp:191-207 | ends with the three staging files, or with the disk as before; for a writable summary it fails only for a refused file operation or a name that cannot be written down |
| Transaction.CaptureEvidenceToFile | cli/evidence_transaction.cpp:76-252 | all or nothing: exactly the three files of the bundle, or the disk as it was if closed files can be deleted; no other path is altered in any state, and the image carries its final name only in the last state of a capture that ended well; it ends well unless something was refused, the flag was raised, the device's answers rule it out or the path was no good, and is cancelled only when the flag was raised |
| Driver.SuccessfulReadsAreFrozen | driver/memory.c:24-50 | in every run of the machine a successful read lies inside one run of a table that was frozen by a create and has not been released or ended since |
| Driver.ServingIsFrozen | driver/session.c:92-97 | whenever a session serves, it serves exactly the table some create froze |
| Driver.EndComparesWithSnapshot | driver/session.c:146-152 | the end reports a change exactly when the table at the end differs from the frozen one, and counts the table at the end |
| Driver.NothingServedAfterEnd | driver/session.c:137-139 | after an end or a cleanup nothing is served or ended until the next successful create |
| Driver.FileContext.CountRanges | driver/session.c:9-21 | counts the entries in front of the terminator without reading past it |
| Driver.FileContext.SummarizeRanges | driver/session.c:23-50 | total and highest end with the entries skipped that the code skips |
| Driver.FileContext.RangesEqual | driver/session.c:52-68 | true exactly when the two tables are equal |
| Driver.FileContext.SessionBegin | driver/session.c:70-98 | freezes the table or frees it again; one allocation is live exactly when a table is held |
| Driver.FileContext.SessionEnd | driver/session.c:125-154 | answers as the machine does and frees the table it compared with |
| Driver.FileContext.SessionRelease | driver/session.c:100-123 | frees the snapshot once and leaves a context that serves nothing |
| Driver.FileContext.CopyRun | driver/memory.c:3-71 | answers as the machine does: inside the named run, with the address, the request and the copy's own count and status |
| Driver.FileContext.HandleGetRanges | driver/ioctl.c:40-76 | hands out the frozen table, in order, if the buffer holds it |
| Driver.FileContext.Dispatch | driver/ioctl.c:200-239 | every callback, under the device lock, answers as the machine does and keeps the pool in order; only live memory is read or freed |
| DeviceSessions.SortSorts | cli/device.cpp:89-91 | sorting gives a permutation ordered by base |
| DeviceSessions.Normalize | cli/device.cpp:79-103 | accepts a table exactly when a base-ordered, pairwise disjoint permutation of it without empty or overflowing runs exists, and returns it |
| DeviceSessions.NormalizationUnique | cli/device.cpp:89-91 | there is at most one accepted result, so the unstable sort cannot show |
| DeviceSessions.NormalizedRunsAreEntries | cli/device.cpp:80-87 | each run is the driver's entry at its index, and the indexes are 0 to n-1, each once |
| DeviceSessions.NormalizedTotals | driver/session.c:23-50 | for an accepted table the driver's skipping totals are the exact sum of the lengths and the end of the last run |
| DeviceSessions.DeviceSession.Query | cli/device.cpp:35-104 | the answer is the accepted normalisation of the frozen table, unless the system withheld a buffer |
| DeviceSessions.DeviceSession.Read | cli/device.cpp:143-196 | the answer passes the engine's result filter exactly when the driver admits the request, and is none otherwise, unless the system withheld a buffer |
| DeviceSessions.DeviceSession.End | cli/device.cpp:198-224 | the first end that is not refused reports whether the tables differ, later ones fail; it is refused when a buffer is withheld or no ranges are reported, and the session then stays open |
| DeviceSessions.EveryMemoryHasOracle | driver/memory.c:52-70 | every table, every memory, changing as it may from call to call, and every way of refusing calls is a device the engine is proved against |
| DeviceSessions.LikeDriverIsServed | cli/device.cpp:143-224 | the log of a device that answers like the driver is a log served by the driver, without a refused call if none is ever refused |
| Verifier.ValidateRanges | tools/phylaram-verify/src/verifier.rs:226-293 | reports the first fault of the first faulty range, else the first of the sum, the highest end and the driver runs that is wrong; the sum cannot overflow |
| Verifier.RangesAcceptedIffSound | tools/phylaram-verify/src/verifier.rs:226-293 | ranges are accepted exactly when non-empty, sorted, disjoint, inside the image, with the right sum and highest end, and driver runs a permutation of 0..n-1 |
| Verifier.RangeSumBelowEnd | tools/phylaram-verify/src/verifier.rs:262-264 | the running sum never exceeds the end of the previous range |
| Verifier.DomainCheckIsPermutation | tools/phylaram-verify/src/verifier.rs:284-290 | the comparison of sets accepts exactly the permutations |
| Verifier.ValidateUnreadableSpans | tools/phylaram-verify/src/verifier.rs:301-346 | reports the first fault of the first faulty span, else a wrong sum; the sum cannot overflow |
| Verifier.SpansAcceptedIffSound | tools/phylaram-verify/src/verifier.rs:301-346 | spans are accepted exactly when they parse, are non-empty, sorted, disjoint, each inside one range, with the right sum |
| Verifier.SpanSumBelowEnd | tools/phylaram-verify/src/verifier.rs:332-335 | the running sum never exceeds the end of the previous span |
| Verifier.ScanSpan | tools/phylaram-verify/src/verifier.rs:360-379 | finds the least non-zero offset of a span, whatever the chunk boundaries, and asks for no byte outside the file; a failed read, and nothing else, is an input error |
| Verifier.VerifyUnreadableRepresentation | tools/phylaram-verify/src/verifier.rs:348-383 | unless a request to the system fails, accepts exactly when every span is all zero, else names the first offending span and its least non-zero offset |
| Verifier.CalculateLogicalRawSha256 | tools/phylaram-verify/src/hash.rs:6-34 | however the reads split, the digest is that of the file padded with zeros to the logical size; it fails only when a request to the system fails |
| Verifier.ValidateAccounts | tools/phylaram-verify/src/verifier.rs:443-457 | the checks between header and contents accept exactly the sound ranges, spans, accounting and status |
| Verifier.ValidateSidecar | tools/phylaram-verify/src/verifier.rs:398-413 | accepts exactly a readable sidecar whose first word is the digest, in either case, unless the read fails |
| Verifier.VerifyContents | tools/phylaram-verify/src/verifier.rs:459-470 | the checks of image and sidecar accept only sound bundles, and reject a sound one only when a request to the system fails |
| Verifier.VerifyBundle | tools/phylaram-verify/src/verifier.rs:415-471 | accepts only bundles whose files meet the declarative description, and returns their map; rejects such a bundle only with an input error, and only when a request to the system fails |
| EndToEnd.DriverNeverRejects | cli/acquire.cpp:169-180 | unless the system refuses a call no answer of the driver ends an acquisition, and its accepted tables pass every check of the engine in any case |
| EndToEnd.AcquireFromDriver | cli/acquire.cpp:104-375 | over the driver an acquisition fails only by a refused file operation, hashing call or driver request, or by cancellation; otherwise it ends the session once, after its last read |
| EndToEnd.SpansInRunsIffNothingLostAcross | tools/phylaram-verify/src/verifier.rs:295-299 | every span lies in one run exactly when nothing was lost with one status on both sides of a seam between touching runs |
| EndToEnd.AlwaysInRunsIffNoneTouch | cli/device.cpp:93-99 | over an arbitrary device the spans of every finished walk lie in single runs exactly when no two runs touch |
| EndToEnd.PublishedIsAcceptable | tools/phylaram-verify/src/verifier.rs:415-471 | a finalized bundle is acceptable exactly when nothing was lost across a seam; the map's status is the producer's; the digest is that of the published file |
| EndToEnd.DriverMakesPossible | cli/evidence_transaction.cpp:97-189 | no driver whose table is accepted, whose topology fits the volume and none of whose requests is refused gives answers that rule a capture out |
| EndToEnd.CaptureThenVerify | cli/evidence_transaction.cpp:76-252 | capturing over the driver and then verifying: with an accepted table that fits the volume, a free path and nothing refused or cancelled the capture ends well; when it does, the verifier, if it can read the files, accepts exactly when nothing was lost across a seam, always when no two entries touch, with the status the producer returned |
| EndToEnd.SidecarNamesDigest | tools/phylaram-verify/src/verifier.rs:398-413 | the first word of the sidecar the producer writes is the digest |
| Seams.FinishedIsFinalized | cli/evidence_transaction.cpp:76-252 | every finished walk over an accepted table is the walk of a finalized capture over the driver |
| Seams.TouchingTableIsRejected | cli/device.cpp:93-99 | for every accepted table with touching entries a finalized capture, served by the driver without refusal, whose bundle the verifier rejects |
| Seams.AlwaysAcceptedIffNoneTouch | tools/phylaram-verify/src/verifier.rs:295-299 | all bundles finalized over an accepted table are accepted exactly when no two of its entries touch |
| Seams.LostAcrossIffSeamFails | cli/acquire.cpp:34-43 | over static memory something is lost across a seam exactly where the pages on both sides fail with one status |
| Seams.StaticBundleAcceptedIffNoSeamFails | tools/phylaram-verify/src/verifier.rs:295-299 | over static memory a finalized bundle is accepted exactly when at no seam of the table the pages on both sides fail with one status |
| Zdmp.ZdmpWriter.Configure | cli/zdmp_writer.cpp:6-22 | the slot offsets are the header size plus the lengths of the runs before, modulo 2^64 |
| Zdmp.ZdmpWriter.CalculateFileOffset | cli/zdmp_writer.cpp:79-88 | the search gives the offset function of the lemmas |
| Zdmp.ZdmpWriter.WriteAt | cli/zdmp_writer.cpp:90-126 | one write is one more segment of the packed file; nothing else on the disk changes; it fails only when closed, empty, or past the signed offset range, or when the system refuses an operation or is one that may shorten writes |
| Zdmp.OffsetsAreABijectionIffPacked | cli/zdmp_writer.cpp:79-88 | addresses map to the payload one to one, in order and without holes, exactly when header and payload fit in 64 bits |
| Zdmp.WrapExample | cli/zdmp_writer.cpp:17-21 | a sorted disjoint table whose last byte is sent into the header |
| Zdmp.EverySegmentInOneRun | cli/zdmp_writer.cpp:90-126 | each write of an acquisition stays in one run |
| Zdmp.PackedHoldsImage | cli/zdmp_writer.cpp:90-126 | each populated address has in the packed file the byte it has in the flat image |
| Zdmp.ConvertToZdmp | tools/phylaram_convert.py:37-114 | the output is the header and the stretches of the image the map names, in order, cut off where the image ends |
| Zdmp.MapExtentsAreRuns | tools/phylaram_convert.py:103-105 | the ranges of a map written by the producer parse back to its runs |
| Zdmp.ConversionCommutes | tools/phylaram_convert.py:101-114 | the dump written during an acquisition and the dump converted from its flat image have the same payload up to trailing zeros, and the written one keeps its header |
| Adler.CalculateAdler32 | cli/e01_writer.cpp:43-54 | the loop computes the two sums of section 2.2 of RFC 1950, each modulo 65521 |
| Adler.AdlerComposes | cli/e01_writer.cpp:43-54 | resuming over two pieces in turn, from any earlier value, is resuming once over their concatenation |
| Adler.Adler32OfConcatenation | cli/e01_writer.cpp:43-54 | the checksum of a concatenation is that of the second part resumed from that of the first |
| E01.E01Writer.PreflightAndOpen | cli/e01_writer.cpp:152-209 | on success the file is the file header, the two sections in front and the provisional header of the chunks; no other file is touched; it fails only when the file is held open, a section is too long for one write, or the system refuses an operation or is one that may shorten writes |
| E01.E01Writer.WriteAt | cli/e01_writer.cpp:245-274 | for any split into writes the stream grows by the data, whole chunks are in the file and the rest is in the buffer; it fails only when closed or empty, or when the system refuses an operation or is one that may shorten writes |
| E01.E01Writer.FlushActiveChunk | cli/e01_writer.cpp:211-243 | the stream is padded with zeros to a whole chunk, stored with its checksum and noted in the table; it fails only when the system refuses an operation or is one that may shorten writes |
| E01.E01Writer.FlushAndClose | cli/e01_writer.cpp:369-421 | the file is a function of the stream and of what the system did with the three unchecked calls, and is the container exactly under the stated condition; it fails only when the system refuses an operation or is one that may shorten writes, or the table is too long for one write |
| E01.ClosedIffCompleted | cli/e01_writer.cpp:380-395 | whatever part of the header is written, the file is the container exactly when the header was sought and either the writer returned to the end and the bytes not written were right already, or it did not return, the header was written whole and there are no chunks |
| E01.NothingWrittenIsWrong | cli/e01_writer.cpp:380-395 | a header of which nothing, or nothing behind its kind, was written is never right already |
| E01.ContainerChains | cli/e01_writer.cpp:276-367 | following the next offsets from byte 13 visits six sections of the right kinds that tile the file, each header with its right checksum |
| E01.TableFindsChunk | cli/e01_writer.cpp:221-222 | following the table finds chunk i of the padded stream and its checksum |
| E01.TableExactIffSmall | cli/e01_writer.cpp:221-222 | all entries are 76 + 65540 i exactly when there are at most 65532 chunks |

## Left out

- User interface, command line, driver installation and service control: no claim of the pipeline rests on them.
- Progress, transfer pacing and remaining-time estimates: wall clock and floating point; pacing is kept as a step that may end a run when it is cancelled, polling once.
- The compression function of SHA-256, JSON text, UTF-8 conversion and Unicode case folding beyond ASCII: arbitrary functions, or an operation that succeeds or fails.
- Kernel hints, evidence metadata, error texts and system error numbers: they are carried along and decide nothing; the map record has no `kernel_hints` field.
- Volume, path and free-space queries, IRQL, MDL mapping and access control: one answer each, or an operation that succeeds or fails.
- Missing and repeated JSON fields, and integers outside their type: they are the parser's, which here gives a record or nothing.
- Devices.Device: the acquisition engine is proved against a device that may answer anything, in place of the virtual interface; `DeviceSessions.DeviceSession` is proved to answer like such a device with `DeviceSessions.AnswersLikeDriver`, but is not itself passed to the engine.
- DeviceSessions.DeviceSession.Query: the checks of reply sizes, protocol versions and of an open handle are not modelled; the modelled driver answers with its own sizes and version, or the request is refused.
- DeviceSessions.Normalize: the library sort is an insertion sort on values; by `DeviceSessions.NormalizationUnique` any sort by base gives the same answer.
- Driver.FileContext.Dispatch: callbacks run one at a time, which is what the synchronization scope of the device asks of the framework; the framework itself and the exclusive flag of the device are taken as given.
- Verifier.VerifyBundle: the files do not change while they are verified.
- Transaction.FileName: drive prefixes are stripped as the path library does; bare server names and alternate data streams are not modelled.
- Transaction.CaptureEvidenceToFile: for the flat image format only; the packed writers leave a partial file when their header cannot be written, so their captures are not all or nothing.
- Zdmp.ZdmpWriter.PreflightAndOpen: the header page is arbitrary bytes; a writer is opened once.
- Zdmp.ConvertToZdmp: addresses are parsed as the verifier parses them; the general number syntax of Python is not modelled, and the producer's addresses read the same either way. Failures to write the output are not modelled.
- E01.E01Writer.PreflightAndOpen: metadata and volume data are arbitrary bytes, and a writer is opened once; sizes stay mathematical integers, with the 64-bit limit stated where a container is read.
- The converter's container output: it pads every range to whole chunks, so it is not the payload of the writer.
- Launch helpers, benchmarks, scripts and triage artifacts.
