# Revenant: what its core algorithms promise, proved

Revenant recovers files from a read-only device: it discovers candidates (by
walking a filesystem and by scanning for file signatures), arbitrates between
them, and extracts the winners. This project models the parts of it that keep
state or cut corners for speed, and proves that they do what the rest of the
program relies on. Its main properties are for-all statements, over every device,
every run or every input; where a promise does not hold, an input on which it
fails stands beside the exact condition under which it does. Every file of the
project is checked by

    dafny verify dfyconfig.toml

## How the model is laid out

| Files | Subject |
|---|---|
| `Bytes`, `Device`, `Candidates` | fixed-width integers, byte orders, the read-only device with the bytes it cannot read, what a run finds |
| `RegionSet`, `ByteAccounting`, `ScanRegions`, `CarvePass` | the fused interval map, what the filesystem pass accounts for, the chunks the carve pass is scheduled to scan, and a signature scan over each of them |
| `IndexFormat`, `Checkpoint`, `CandidateIndex`, `Session`, `RunContents` | the bytes of the index and of the checkpoint, the session files with every state a crash could leave them in, the resume protocol, and what a completed run leaves in the index, candidate by candidate |
| `SignatureTable`, `WindowMatch`, `SignatureScanner`, `ScanReference`, `ScanWindows` | signatures grouped by first byte, the two ways a window is matched, the window loop, the loop against one greedy pass, and when the window size does not matter |
| `JpegWalk`, `JpegGrammar`, `JpegTruncation`, `PngWalk`, `Crc32`, `CrcResidue` | the two validating parsers, against grammars of whole and of truncated files; the CRC by table, by bits and by its residue |
| `ClusterChain`, `ExtentSpan`, `ChainExtents`, `ExtentLocate` | FAT chains, and extent lists as sequences of device addresses |
| `NameEscape`, `RawName`, `Utf16Name`, `Utf16Recovery`, `Utf16Sharing` | name decoding, against UTF-8 and UTF-16 as their standards define them, and which names share a text |
| `BlockReads`, `CachingDevice` | the block cache, against reads of the device itself |
| `Arbitration`, `ArbitrationOrder` | greedy conflict resolution, and how far it depends on the order candidates come in |
| `Sha256` | streaming and padding around an arbitrary compression function |
| `ExtendedChain`, `ExtendedChainCap` | the walk over extended boot records, and what its cap bounds |

Code that changes state is a class or a method with its loops; each is tied by
its contract to a function of its inputs or of the old state, and the lemmas
about that function say what the source promises. Where the source sorts with
the library, nothing depends on more than the library's contract: arbitration
allows any order of candidates that tie, any sort of a window's matches gives the
one canonical list (`WindowMatching.AnySortIsCanonical`), and so does any stable
sort of the signatures by first byte (`Signatures.AnyStableSortAgrees`).

Constants, offsets and small functions that code and specification share are also
stated without one another's help: what an extent's bytes are, where a scan goes on,
which codes a JPEG may hold, what a CRC leaves as its residue, which bytes stand
where in an index, a checkpoint, a table entry or a boot record, and what a
completed run's index holds are all spelled out on literal values.

A crash is modelled at every durable change. `SessionFiles` keeps a history
with one entry for every byte that reached a file and every truncation, rename
and removal; a crash puts the files back to any entry of it. The invariant of
the resume protocol, `Sessions.Durable`, holds of every entry.

## Where the code and its own words differ

- **Window edges.** The overlap between windows is said to make a magic that
  straddles an edge whole in the next window
  (`src/carve/WindowMatch.cpp:145-147`). It does not when a shorter signature
  near the edge is whole, is carved, and moves the cursor past the longer one's
  start; `ScanReference.WindowSizeCanDecide` is a device on which two window
  sizes report differently. `ScanWindows.WindowsAgreeExactly` says when every
  window reports the same: exactly when no place a window may end cuts off a
  signature of the greedy pass and leaves a later one whole.
  `ScanReference.ScanIsGreedyExactly` answers for one window size.
- **Group bounds.** The signature table keeps its group bounds in 16 bits. They
  are right exactly when fewer than 65536 signatures are registered
  (`Signatures.SignatureTable.IndexGroups`).
- **Empty extents.** `trimToSize` promises an error when the extents do not
  reach the size. An empty extent met before the size is reached ends the list
  there and is reported as success (`ExtentSpans.EmptyExtentIsTakenForTheEnd`);
  otherwise it does what it promises (`ExtentSpans.TrimmingIsExact`).
- **UTF-16 escapes.** They are called lossless, but the sigil `%` is not itself
  escaped, so two names on disk can decode to one text
  (`Utf16Recovery.EscapesCollide`). `Utf16Sharing.SharedTextsExactly` says exactly
  which names share their text with another: those with a part that was escaped,
  and those that spell an escape some other name would need.
- **Ties in arbitration.** Every tie is said to be broken by something, so that
  two runs over one device agree (`src/recovery/Arbitration.cpp:45-46`). Two
  candidates can agree in all four parts of a rank and differ only in name, and
  then either may win (`ArbitrationOrder.ContestedTiesMayDiffer`). Runs agree
  exactly when no two candidates that stand, that is, that are neither rejected
  nor share a byte with one that stands before them, tie over a byte
  (`ArbitrationOrder.RunsAgreeExactly`).
- **The length cap of an EBR chain.** It is said to keep a crafted table from
  spelling a chain billions of links long (`src/volume/ExtendedChain.cpp:50-52`),
  but it counts partitions, not links. For every count a 32-bit field can state
  there is a device on which that many links are followed
  (`ExtendedChainCap.EmptyChainIsFollowed`); `ExtendedChainCap.CapIsPassedExactly`
  says when more links are followed than the cap. The bound that holds on every
  device is its number of sectors (`ExtendedChains.LogicalPartitions`).
- **The cache fails reads its source would serve.** It asks for whole blocks, so
  a fault elsewhere in a block fails a read of bytes that are fine
  (`BlockReads.NeighbouringFaultFails`), and a block that would end past 2^64 - 1
  is refused with an overflow (`BlockReads.LastBlockOverflows`).
  `BlockReads.OnlyTheCacheFails` says exactly when that happens, and that what the
  cache does serve is what the source would.
- **The pending checkpoint.** `clearCheckpoint` removes `checkpoint.new`
  (`src/recovery/Checkpoint.cpp:43,116-120`), while the replacement is written
  under a `.pending` suffix (`src/recovery/SessionFile.cpp:19,49-50`); what is
  left behind is never read, so the model has no such file.
- **JPEG segments.** The walk accepts a length-prefixed segment under any code
  but 0xFF, EOI, SOS, TEM and the restart markers, so also under 0x00 and under
  a second SOI (`JpegTruncation.AnyOtherCodeBeginsASegment`); `JpegGrammar`
  admits exactly what the walk admits.

## Model

| member | source | states |
|---|---|---|
| Regions.RegionSet.Add | src/recovery/RegionSet.cpp:81-88 | adding an extent keeps the map sorted and strictly separated, and makes the bytes claimed exactly the old ones and the extent's, with ends saturating |
| Regions.RegionSet.FirstTouching | src/recovery/RegionSet.cpp:42-48 | splits the map into the ranges that end before the start and those that reach it |
| Regions.RegionSet.Overlaps | src/recovery/RegionSet.cpp:90-99 | true exactly when some claimed byte is a byte of the extent |
| Regions.RegionSet.Gaps | src/recovery/RegionSet.cpp:101-109 | the gaps are in order, disjoint, never empty, and hold exactly the device's unclaimed bytes |
| Regions.RegionSet.ClaimedByteCount | src/recovery/RegionSet.cpp:111-119 | the sum is the number of claimed bytes, and never wraps |
| Regions.ClaimIsUnion | src/recovery/RegionSet.cpp:52-59 | fusing is union of byte sets and keeps the map fused, the degenerate range at the widest offset included |
| Regions.EndBoundsTheBytes | src/recovery/RegionSet.cpp:27-32 | the saturating end bounds exactly the bytes from the offset to the sum of offset and length, those at and past the widest offset excepted |
| Regions.AdjacentAreApart | src/recovery/RegionSet.cpp:90-99 | an extent that starts at or past the end of another shares no byte with it, and neither overlaps the other once claimed |
| Regions.GapsAreExact | src/recovery/RegionSet.cpp:63-77 | the complement inside the device, byte for byte |
| Regions.ClaimedBytesIsCardinality | src/recovery/RegionSet.cpp:111-119 | the ranges' lengths sum to the size of the claimed byte set |
| Accounting.ByteAccounting.AddRegion | src/recovery/ByteAccounting.cpp:15-24 | past the cap an extent is dropped and counted; otherwise it is claimed |
| Accounting.ByteAccounting.AccountFor | src/recovery/ByteAccounting.cpp:26-33 | only a fully trusted entry accounts for its extents |
| Accounting.AddExtentsCoverage | src/recovery/ByteAccounting.cpp:15-33 | nothing is claimed that no extent named, and without a drop nothing named is missing |
| Accounting.DropsAreTheRest | src/recovery/ByteAccounting.cpp:15-24 | every extent before the map first fills up is claimed, and the drop count is exactly the number of those after it |
| Accounting.SpokenIsNamed | src/recovery/ByteAccounting.cpp:26-33 | the bytes accounted for are exactly those some extent of an entry of confidence 2 runs over |
| Accounting.GapsAreUnaccounted | src/recovery/ByteAccounting.cpp:35-37 | every byte no trusted extent names is in a gap, whatever was dropped; without a drop no accounted byte is |
| Schedule.RegionsFrom | src/recovery/ScanRegions.cpp:38-47 | what is left of the regions past a cursor |
| Schedule.Chunked | src/recovery/ScanRegions.cpp:25-34 | the regions cut into chunks of the configured length and a shorter last one each |
| Schedule.ChunksPartition | src/recovery/ScanRegions.cpp:49-56 | cutting keeps order, bounds every chunk, and loses, adds or repeats no byte |
| Schedule.ChunksAreFull | src/recovery/ScanRegions.cpp:25-34 | a chunk is as long as configured unless it ends where its region does |
| Schedule.ResumedChunksAreTheRest | src/recovery/ScanRegions.cpp:38-56 | re-cutting at the end of any chunk yields exactly the chunks still to come |
| Schedule.ScheduleCoversTheUnaccounted | src/recovery/HybridRecovery.cpp:130-139 | every device byte no trusted extent names lies in exactly one bounded chunk, the chunks are in order, and without a drop no accounted byte is in any |
| CarvePass.UnaccountedSignatureIsFound | src/recovery/HybridRecovery.cpp:130-155 | every signature on the device that starts where no trusted extent is named is accounted for by the scan of one scheduled chunk |
| CarvePass.ReportsStartUnaccounted | src/recovery/HybridRecovery.cpp:130-155 | what a chunk's scan reports starts at a signature inside that chunk and, unless an extent was dropped, on no accounted byte |
| IndexFormat.EncodeRecord | src/recovery/CandidateRecord.cpp:76-84 | filling the record in place gives the 48 bytes its fields spell, padding zeroed |
| IndexFormat.EncodeBlobEntry | src/recovery/CandidateIndex.cpp:37-45 | name, extents and resident content, in that order |
| IndexFormat.RecordLayout | src/recovery/CandidateRecord.cpp:42-84 | where each field of a candidate stands in its 48 bytes, least significant byte first |
| IndexFormat.EntryLayout | src/recovery/CandidateIndex.cpp:37-45 | where the name, each extent and the resident content stand in the blob entry |
| IndexFormat.RecordRoundTrip | src/recovery/CandidateRecord.cpp:86-100 | a record decodes to the fields it was encoded from |
| IndexFormat.CandidateRoundTrip | src/recovery/CandidateIndexRead.cpp:111-128 | record and blob entry together decode to the candidate appended |
| IndexFormat.DecodeExtents | src/recovery/CandidateIndexRead.cpp:96-109 | reads back the extents of a blob entry |
| IndexFormat.IndexIsOpened | src/recovery/CandidateIndexRead.cpp:148-155 | an index is opened exactly when its first sixteen bytes are the magic, the version and the record size, each where it belongs, and it has at most 2^20 whole records |
| IndexFormat.ReadIndex | src/recovery/CandidateIndexRead.cpp:148-198 | the candidates and the drop count of an index, or its refusal |
| IndexFormat.HeldRecordIsRead | src/recovery/CandidateIndexRead.cpp:133-144 | a record whose entry the blob holds yields its candidate, or a drop exactly when a length is over its bound |
| IndexFormat.HeldIndexIsRead | src/recovery/CandidateIndexRead.cpp:179-198 | an index that holds some candidates, with or without part of one more record, reads as exactly them |
| IndexFormat.TornIndexReadsItsPrefix | src/recovery/CandidateIndexRead.cpp:157-160 | cut at any byte past the header, an index reads as the appended prefix of whole records, with one drop counted exactly when part of a record remains |
| IndexFormat.HoldsAfterAppend | src/recovery/CandidateIndex.cpp:136-149 | an entry flushed before its record adds exactly that candidate |
| IndexFormat.HoldsAfterGrowth | src/recovery/CandidateIndex.cpp:118-134 | longer files, or files truncated to the records kept, still hold them |
| CheckpointFile.CheckpointRoundTrip | src/recovery/Checkpoint.cpp:49-114 | the 64-byte record reads back as the checkpoint written |
| CheckpointFile.CheckpointIsRead | src/recovery/Checkpoint.cpp:49-114 | a file is read as a checkpoint if and only if it is 64 bytes with that magic, version, shape, cursor and count, each where it belongs |
| CandidateIndexing.CandidateIndex.Create | src/recovery/CandidateIndex.cpp:94-103 | a new index holds nothing, over whatever was there, and leaves the checkpoint alone in every state on the way |
| CandidateIndexing.CandidateIndex.Continued | src/recovery/CandidateIndex.cpp:105-116 | continues with the counts it was told and the blob as far as it reaches |
| CandidateIndexing.CandidateIndex.WriteEntry | src/recovery/CandidateIndex.cpp:136-149 | appends the entry and then the record pointing at it, and every state in between only grew |
| CandidateIndexing.CandidateIndex.Append | src/recovery/CandidateIndex.cpp:151-153 | an index holding some candidates then holds them and this one |
| Sessions.FreshSession | src/cli/Session.cpp:35-42 | an empty index, the checkpoint gone first, and every state on the way resumable or fresh |
| Sessions.Reopen | src/recovery/CandidateIndex.cpp:118-134 | an index too short is refused untouched; otherwise it is truncated to the records counted |
| Sessions.ContinuedSession | src/cli/Session.cpp:44-51 | resumes when the index holds what the checkpoint counts, and starts over when not |
| Sessions.OpenSession | src/cli/Session.cpp:53-77 | resumes exactly when the stored checkpoint is readable and of this request, and then the index holds exactly what had been recorded by its chunk |
| Sessions.DurableAfter | src/recovery/CandidateIndex.cpp:118-149 | appending, and truncating to what the checkpoint counts, keep a session durable |
| Sessions.DurableAtCheckpoint | src/cli/Session.cpp:85-100 | a checkpoint written once a chunk is recorded is one to resume from |
| Sessions.RunFilesystemPass | src/recovery/HybridRecovery.cpp:99-128 | a fresh run appends each entry once, a resumed one none, and both account for all of them |
| Sessions.CarveRegions | src/recovery/HybridRecovery.cpp:130-139 | what is left to carve is exactly the planned chunks from the one the session stands at |
| Sessions.ScanNextRegion | src/recovery/HybridRecovery.cpp:141-155 | a scanned chunk adds its candidates, rejected ones excepted, in order; it fails exactly when the device does before its end |
| Sessions.OnScanned | src/cli/Session.cpp:85-100 | the checkpoint then names the chunk just recorded and the count of the index |
| Sessions.ScanRegions | src/recovery/HybridRecovery.cpp:157-183 | fails exactly when the device does in a chunk it reaches; otherwise the totals and the index are those of the chunks reached, complete exactly when that is all of them, an interrupt after the last one included |
| Sessions.RunFrom | src/recovery/HybridRecovery.cpp:198-211 | the walk and then the chunks still to scan: however it ends, every state of the files is one to resume from, and complete it leaves the uninterrupted recording |
| Sessions.Run | src/cli/Session.cpp:71-77 | the same of a whole run, from whatever session it opens |
| Sessions.Recover | src/cli/Session.cpp:71-100 | after any number of runs stopped by the operator, the device or a crash at any durable change, a run that completes leaves exactly the candidates of the uninterrupted run, once each and in order; and an undisturbed last run completes |
| RunContents.ChunksAreCut | src/recovery/HybridRecovery.cpp:130-139 | a run over the file system alone plans no chunk; planned chunks are in order and on the device, and each is as long as configured unless the device ends there or the bytes of a trusted entry begin |
| RunContents.PlanIsCarved | src/recovery/HybridRecovery.cpp:130-139 | every byte no trusted entry of a counted walk speaks for is in a planned chunk, and with at most 65536 trusted extents no other byte is |
| RunContents.ResumableIs | src/cli/Session.cpp:53-69 | a run resumes exactly from a file that holds, byte for byte, a checkpoint of its own shape |
| RunContents.RecordingIsTraced | src/recovery/IndexingVisitors.cpp:18-60 | what an uninterrupted run records is each walked entry, with its path, extents, content, times and confidence as a filesystem candidate, then each find of a planned chunk that is not rejected, with the bytes from its offset to offset plus length and its confidence and extension as a carve: each once, in order, and nothing else |
| RunContents.CompletedIndexIsTraced | src/recovery/IndexingVisitors.cpp:42-60 | the index a completed run leaves reads back as exactly those candidates within the reader's bounds, in order, with the rest counted as dropped |
| Signatures.StableSortKeepsGroups | src/carve/SignatureTable.cpp:63-72 | sorting by first byte keeps every group in registration order |
| Signatures.AnyStableSortAgrees | src/carve/SignatureTable.cpp:67-71 | whatever puts the entries in order of first byte and keeps every group gives this one list |
| Signatures.SignatureTable.GroupEnd | src/carve/SignatureTable.cpp:98-104 | one past the run of entries that start with a byte |
| Signatures.EntriesAreRegistered | src/carve/SignatureTable.cpp:26-40 | a carver's entries are exactly its signatures with a magic, with their offsets and its index |
| Signatures.SignatureTable.IndexGroups | src/carve/SignatureTable.cpp:106-115 | the stored bounds slice the entries into the 256 groups if and only if there are fewer than 65536 of them |
| Signatures.SignatureTable.BuildNibbleFilter | src/carve/SignatureTable.cpp:83-93 | the filter has the bits of exactly the signatures' first bytes, so that every byte a signature starts with passes |
| Signatures.FilterIsExact | include/revenant/carve/SignatureTable.hpp:37-57 | a byte passes if and only if its low nibble and the low three bits of its high one are some first byte's, and its high nibble is some first byte's: what is passed needlessly is exactly that |
| Signatures.AddToFilterPasses | include/revenant/carve/SignatureTable.hpp:47-57 | a byte added passes, and no byte that passed stops passing |
| Signatures.SignatureTable.Rebuild | src/carve/SignatureTable.cpp:63-76 | the whole table is right for every carver list of fewer than 65536 signatures, and for no other |
| Signatures.SignatureTable.None | include/revenant/carve/SignatureTable.hpp:97-100 | true exactly when no signature starts with the byte |
| Signatures.SignatureTable.StartingWith | src/carve/SignatureTable.cpp:117-124 | exactly the signatures that start with the byte, in registration order |
| WindowMatching.GroupDecides | src/carve/WindowMatch.cpp:55-65 | asking only the group of a position's byte finds what asking every signature would |
| WindowMatching.MatchAt | src/carve/WindowMatch.cpp:55-65 | the matches of every signature at one position |
| WindowMatching.MatchPortable | src/carve/WindowMatch.cpp:78-90 | every signature at every position |
| WindowMatching.LowestCleared | src/carve/WindowMatch.cpp:103-110 | the mask step drops the lowest set bit and no other |
| WindowMatching.MatchSurvivors | src/carve/WindowMatch.cpp:103-110 | asking only the positions a mask kept loses no match of the vector |
| WindowMatching.MatchWithFastPath | src/carve/WindowMatch.cpp:131-143 | every signature at every position, for any prefilter that drops no byte the filter passes |
| WindowMatching.CanonicalIsSorted | src/carve/WindowMatch.cpp:157-164 | sorting orders the matches and neither loses nor repeats one |
| WindowMatching.AnySortIsCanonical | src/carve/WindowMatch.cpp:157-164 | whatever puts the matches in order and keeps them all gives this one list |
| WindowMatching.MatchWindow | src/carve/WindowMatch.cpp:166-181 | fast path, portable path and the naive specification give one canonical list |
| Scanning.ReadAndMatch | src/carve/WindowMatch.cpp:192-206 | one window's matches that start in it, the bytes read, and the overlap |
| Scanning.ProcessMatches | src/carve/CarveMatches.cpp:78-92 | the reports and the resume point a match list comes to |
| Scanning.ProcessCovers | src/carve/CarveMatches.cpp:48-74 | in canonical order, every match is carved or lies inside what an earlier one resumed past |
| Scanning.ReadIsTheMost | src/carve/SignatureScanner.cpp:66-78 | a step reads as much as the buffer holds, the device has, and one signature's reach past the region's end allows, and no more |
| Scanning.WindowMatchesAreHits | src/carve/WindowMatch.cpp:192-206 | a window's matches are exactly the signatures on the device that start in it and are whole in it |
| Scanning.HitIsASignature | src/carve/SignatureTable.cpp:26-52 | a match is a hit exactly when its carver registered a signature whose bytes stand at the match's offset plus the signature's, and end by the window's end |
| Scanning.CursorAfter | src/carve/SignatureScanner.cpp:25-32 | the cursor strictly advances |
| Scanning.ScanOneWindow | src/carve/SignatureScanner.cpp:46-96 | one step's reports and next cursor |
| Scanning.ScanRegionWindows | src/carve/SignatureScanner.cpp:111-134 | the loop over a region with a saturating end reports what the scan specification says |
| Scanning.ScanReportsInOrder | src/carve/SignatureScanner.cpp:111-122 | reports start inside the region at a real signature, and none before the last one's resume point |
| Scanning.ScanAccountsForEveryHit | src/carve/SignatureScanner.cpp:25-122 | every signature that starts in the region is reported at its start or lies below the resume point of a candidate within its reach |
| ScanReference.GreedyIsUnique | src/carve/CarveMatches.cpp:48-92 | one greedy pass over the region is a well-defined reference |
| ScanReference.NextReportIsFirst | src/carve/CarveMatches.cpp:48-74 | after a report a window that still holds a whole match past it, past offset plus length of a trusted candidate or past the offset of a rejected one, reports the first such match next |
| ScanReference.NothingInsideATrusted | src/carve/CarveMatches.cpp:48-53 | no later report of a scan starts below the end of a candidate that is not rejected, nor at or below the start of any |
| ScanReference.ScanIsGreedyExactly | src/carve/SignatureScanner.cpp:25-122 | the windowed scan is that pass if and only if no window's end cuts off a signature that the window's next report passes over |
| ScanReference.EndInOrderOvertakesNothing | src/carve/SignatureScanner.cpp:25-78 | nothing is passed over where signatures end in the order they start |
| ScanReference.SpacedEndsInOrder | src/carve/WindowMatch.cpp:145-153 | signatures end in the order they start where distinct ones start at least the widest signature apart |
| ScanReference.ReportsIgnoreWindowSize | src/carve/SignatureScanner.cpp:65-134 | where signatures end in the order they start, the reports do not depend on the window size |
| ScanWindows.WideWindowIsGreedy | src/carve/SignatureScanner.cpp:65-122 | a window that holds the region and one signature's reach makes one greedy pass, so there is one |
| ScanWindows.WindowsAgreeExactly | src/carve/SignatureScanner.cpp:25-122 | every window that holds each signature reports what the greedy pass does if and only if no place a window may end cuts off a signature of that pass and leaves a later one whole |
| ScanReference.WindowSizeCanDecide | src/carve/SignatureScanner.cpp:25-32 | one device and carver set on which two window sizes that both hold every signature report differently |
| Jpeg.ScanEntropyData | src/carve/formats/JpegEntropyScan.cpp:29-64 | entropy data ends at an 0xFF that is neither stuffing nor a restart, or where the bytes end |
| Jpeg.SkipFillBytes | src/carve/formats/JpegMarkerWalk.cpp:43-50 | the last of a run of prefix bytes |
| Jpeg.ReadMarkerCode | src/carve/formats/JpegMarkerWalk.cpp:55-87 | the code behind the fill, the walk moved past it, or nothing and the walk unmoved |
| Jpeg.ApplyMarker | src/carve/formats/JpegMarkerWalk.cpp:92-156 | what each kind of marker does to the walk, the breaks included |
| Jpeg.WalkMarkers | src/carve/formats/JpegMarkerWalk.cpp:160-197 | the walk terminates, with the outcome of the step relation |
| Jpeg.Carve | src/carve/formats/JpegCarver.cpp:50-55 | the verdict of the walk, or a rejection without SOI |
| Jpeg.CarveStaysInside | src/carve/formats/JpegMarkerWalk.cpp:176-197 | whatever the bytes, no more of them is claimed than there are |
| JpegGrammar.WholeFileIsCarved | src/carve/formats/JpegCarver.cpp:32-40 | every well-formed marker list with a scan, followed by any bytes, is Valid with exactly its own length |
| JpegGrammar.ValidIsAWholeFile | src/carve/formats/JpegCarver.cpp:32-40 | a Valid verdict of length n names a well-formed marker list of n bytes |
| JpegGrammar.RestartsAreWalkedOver | src/carve/formats/JpegEntropyScan.cpp:16-38 | a scan with any of the eight restart markers between any two runs of entropy data is carved whole |
| JpegTruncation.TruncationIsUncertain | src/carve/formats/JpegMarkerWalk.cpp:160-197 | every file cut short after its first scan began, whichever way its markers break off, is Uncertain with exactly the bytes up to the break |
| JpegTruncation.UncertainIsATruncation | src/carve/formats/JpegCarver.cpp:32-40 | an Uncertain verdict of length n names the markers and the break of such a file in n bytes |
| JpegTruncation.AnyOtherCodeBeginsASegment | src/carve/formats/JpegMarkerWalk.cpp:148-156 | a file with a segment under any code the walk gives no other meaning, 0x00 and a second SOI among them, is Valid |
| Png.StepIsAChunk | src/carve/formats/PngChunkWalk.cpp:93-118 | over the bytes of a chunk that verifies, a step moves the end past it and notes an IEND, unless it is the first and not IHDR |
| Png.WalkPngChunks | src/carve/formats/PngChunkWalk.cpp:105-130 | the walk terminates, with the outcome of the step relation |
| Png.Carve | src/carve/formats/PngCarver.cpp:58-63 | the verdict of the walk, or a rejection without the signature |
| Png.ChunkIsRead | src/carve/formats/PngChunkWalk.cpp:50-89 | a chunk is read at an offset and its CRC verifies exactly when its serialized bytes lie there |
| Png.EndChunkIsRead | src/carve/formats/PngChunkWalk.cpp:87-116 | the twelve bytes of an empty IEND with its CRC are read as a verified end, wherever they lie |
| Png.WholePngIsCarved | src/carve/formats/PngCarver.cpp:40-48 | the signature and a chunk list from IHDR to its only IEND, followed by any bytes, is Valid with exactly its own length |
| Png.ValidIsAWholePng | src/carve/formats/PngCarver.cpp:40-48 | a Valid verdict names a whole chunk list of exactly that length |
| Png.RejectedExactly | src/carve/formats/PngCarver.cpp:38-63 | the verdict is rejected, with no length, if and only if the data does not begin with the signature and an IHDR that verifies |
| Png.UncertainIsAPrefix | src/carve/formats/PngCarver.cpp:40-48 | an Uncertain verdict is the longest run of verified chunks from IHDR without an IEND |
| Png.TruncatedPngIsAPrefix | src/carve/formats/PngCarver.cpp:40-48 | every run of verified chunks from IHDR that stops before an IEND is carved as Uncertain with its own length |
| Crc.TableEntry | src/core/Crc32.cpp:19-25 | eight bits of reflected division |
| Crc.MakeTable | src/core/Crc32.cpp:27-33 | the table holds eight bits of division for every byte |
| Crc.ShiftStepIsLinear | src/core/Crc32.cpp:19-25 | one bit of division distributes over exclusive or |
| Crc.ByteStep | src/core/Crc32.cpp:39-46 | eight bits of division are one table lookup and one shift |
| Crc.Crc32 | src/core/Crc32.cpp:39-46 | the table-driven loop computes the bit-at-a-time division of every message |
| CrcResidue.ResidueIsConstant | src/core/Crc32.cpp:39-46 | dividing any message followed by its CRC, least significant byte first, leaves 0xDEBB20E3 |
| CrcResidue.CrcOfIend | src/core/Crc32.cpp:39-46 | the CRC of the four letters every PNG ends in is 0xAE426082 |
| ClusterChains.Table.ChainFrom | src/fs/ClusterChain.cpp:79-90 | the loop's outcome is where the table leads after as many links as the volume has clusters |
| ClusterChains.EntryIsRead | src/fs/ClusterChain.cpp:24-77 | an entry is read exactly when the four bytes at four times its cluster lie in the table and on the device and can be read, and is their little-endian value less the top four bits |
| ClusterChains.FollowingIsExact | src/fs/ClusterChain.cpp:31-40 | following succeeds with a cluster list if and only if the table links it to an end-of-chain marker, and the list is then pairwise distinct |
| ClusterChains.CapFiresOnRevisits | src/fs/ClusterChain.cpp:82-86 | the length cap fires if and only if the chain returns to a cluster before it leaves the data region |
| ExtentSpans.AppendingKeepsAddresses | src/fs/ExtentSpan.cpp:17-41 | coalescing moves no address |
| ExtentSpans.AppendingKeepsShape | src/fs/ExtentSpan.cpp:35-41 | appending leaves no two extents touching |
| ExtentSpans.ExtentBytes | src/fs/ExtentSpan.cpp:43-49 | the total of the lengths, as 64 bits keep it |
| ExtentSpans.TakenIsTheFront | src/fs/ExtentSpan.cpp:23-31 | while no empty extent is met, what was taken is the front of the layout, and what is missing is the rest of the size |
| ExtentSpans.TrimToSize | src/fs/ExtentSpan.cpp:51-61 | the loop's list, or its refusal when something is still missing |
| ExtentSpans.TrimmingIsExact | src/fs/ExtentSpan.cpp:51-61 | trimming gives exactly the first addresses of the layout, or refuses one too short, if and only if no empty extent is met before the size is reached |
| ExtentSpans.EmptyExtentIsTakenForTheEnd | src/fs/ExtentSpan.cpp:25-28 | a layout whose empty first extent ends the list as a success |
| ExtentSpans.TrimmingKeepsShape | src/fs/ExtentSpan.cpp:51-61 | a trimmed list is as coalesced as the list it came from |
| ChainLayouts.ChainExtents | src/fs/ClusterChain.cpp:97-109 | the clusters appended one by one, then trimmed; nothing for no clusters or no size |
| ChainLayouts.ClusterBytes | src/fs/ClusterChain.cpp:92-95 | byte r of the k-th cluster of a chain is where the geometry puts it, clusters counted from 2 |
| ChainLayouts.ChainExtentsAreTheClusters | src/fs/ClusterChain.cpp:92-109 | a nonempty chain's extents are the first bytes of its clusters in order, at their coarsest, and are refused exactly when the clusters hold fewer |
| ChainLayouts.ExtentsFollowingChain | src/fs/ClusterChain.cpp:111-119 | the extents of the chain the table holds, or none |
| ChainLayouts.FollowingReadsTheChain | src/fs/ClusterChain.cpp:111-119 | they are the file's bytes in chain order whenever the chain holds the size |
| ChainLayouts.UnfollowedHasNoExtents | src/fs/ClusterChain.cpp:113-116 | no extents when the table holds no chain |
| ChainLayouts.ConsecutiveChainIsContiguous | src/fs/ClusterChain.cpp:121-135 | over a chain of consecutive clusters, following and assuming contiguity agree if and only if the chain holds the size or the volume could not |
| ExtentLocation.FindExtent | src/fs/ExtentLocate.cpp:33-43 | the first extent that reaches past the offset answers |
| ExtentLocation.LocateInExtents | src/fs/ExtentLocate.cpp:47-52 | that answer, or an overflow refusal before any |
| ExtentLocation.LocateRefusals | src/fs/ExtentLocate.cpp:42-50 | when a range is refused for overflow and when for starting past the end |
| ExtentLocation.HeldIsAnswered | src/fs/ExtentLocate.cpp:20-40 | a range whose first byte an extent holds gets an address, or is refused for running over that extent's end or, past that, over the widest offset |
| ExtentLocation.LocatedInOneExtent | src/fs/ExtentLocate.cpp:20-43 | an address comes back if and only if one extent holds the whole range and the range ends inside 64 bits |
| ExtentLocation.LocatingIsExact | src/fs/ExtentLocate.cpp:33-52 | over a coalesced layout, if and only if the whole range lies on the device in one piece from that address and ends inside 64 bits |
| NameEscapes.DecodeState.AppendEscapedByte | src/core/NameEscape.cpp:21-26 | three characters, the last two the byte in upper-case hexadecimal, and the name no longer lossless |
| NameEscapes.DecodeState.AppendEscapedUnit | src/core/NameEscape.cpp:28-35 | six characters, the last four the code unit |
| NameEscapes.EscapesAre | src/core/NameEscape.cpp:13-35 | the characters of both escapes, one by one |
| RawNames.DecodeStep | src/fs/RawName.cpp:122-130 | one step's text, the bytes it takes, and whether it escaped |
| RawNames.DecodeRawName | src/fs/RawName.cpp:134-141 | the loop's text and flag are those of the steps |
| RawNames.TableIsUtf8 | src/fs/RawName.cpp:31-95 | the lead and second-byte ranges accept exactly the multi-byte encodings of scalar values |
| RawNames.UnescapingUndoesDecoding | src/fs/RawName.cpp:97-141 | undoing the escapes gives back every byte string |
| RawNames.DecodingIsInjective | src/fs/RawName.cpp:134-141 | no two names decode to one text |
| RawNames.DecodedIsClean | src/fs/PathSafeByte.cpp:22-26 | the text is well-formed UTF-8 with no path separator and no control byte |
| RawNames.LosslessMeansUnchanged | src/fs/RawName.cpp:97-100 | the flag is set exactly when the text is the name |
| RawNames.LosslessIsCleanUtf8 | src/fs/RawName.cpp:108-130 | the flag is set exactly when the name was well-formed UTF-8 with nothing in it to reserve |
| Utf16Names.AppendUtf8CodePoint | src/core/Utf16Name.cpp:87-97 | the UTF-8 encoding of a scalar value, in one to four bytes |
| Utf16Names.DecodeHighSurrogate | src/core/Utf16Name.cpp:124-137 | a pair becomes one scalar value; an unpaired high surrogate is escaped |
| Utf16Names.DecodeStep | src/core/Utf16Name.cpp:141-152 | one step's text, the units it takes, and whether it escaped |
| Utf16Names.DecodeUtf16Name | src/core/Utf16Name.cpp:154-171 | the loop's text and flag, the dangling byte escaped |
| Utf16Names.DecodedIsUtf8 | src/core/Utf16Name.cpp:163-171 | the text is well-formed UTF-8 for every input |
| Utf16Names.LosslessIsCleanUtf16 | src/core/Utf16Name.cpp:110-118 | the flag is set exactly when the bytes encode NUL-free scalar values in UTF-16LE |
| Utf16Names.DecodingTranscodes | src/core/Utf16Name.cpp:154-159 | the text of NUL-free scalar values in UTF-16 is those same values in UTF-8 |
| Utf16Names.LosslessNamesReturn | src/core/Utf16Name.cpp:163-171 | reading a lossless text and encoding it again gives the bytes on disk |
| Utf16Names.LosslessIsInjective | src/core/Utf16Name.cpp:163-171 | two lossless names with one text are one name |
| Utf16Recovery.EscapesAreUndone | src/core/NameEscape.cpp:28-35 | reading every spelled escape as one gives the name back if and only if the name did not itself spell one |
| Utf16Recovery.EscapesCollide | src/core/Utf16Name.cpp:110-113 | every unit escaped on its own, a NUL among them, and the six characters of its escape are two names with one text |
| Utf16Sharing.SharedTextsExactly | src/core/Utf16Name.cpp:110-171 | a name shares its text with another name if and only if part of it was escaped, or it spells `%uXXXX` of a NUL or a surrogate, or it has even length and ends in `%XX` |
| BlockReads.BlockBytesAreLeast | src/core/io/CachingDevice.cpp:20-26 | the block size is the least power of two that covers a sector and the shape asked for |
| Devices.ReadYields | include/revenant/core/io/ReadRange.hpp:42-56 | a read yields exactly the device's own bytes from the offset, as many as asked for or as there are, when none of them faults and the range is one that 64 bits name |
| BlockReads.CachingIsTransparent | src/core/io/CachingDevice.cpp:46-90 | in every state of the cache a read is the device's own, except that it fails, too, exactly when some block the range reaches into cannot be read whole, and reports the first such block |
| BlockReads.OnlyTheCacheFails | src/core/io/CachingDevice.cpp:46-115 | the cache fails a read its source would serve if and only if the range is readable and some block it reaches into cannot be loaded whole; what it serves is what the source would |
| BlockReads.NeighbouringFaultFails | src/core/io/CachingDevice.cpp:104-115 | for every block size over one byte, a block whose last byte is unreadable and a read of its first |
| BlockReads.LastBlockOverflows | src/core/io/CachingDevice.cpp:104-115 | the widest device, and a read of its last byte that the cache refuses with an overflow |
| BlockReads.ServedIsTheCover | src/core/io/CachingDevice.cpp:64-75 | a read that succeeds is served each block it reaches into once, in order |
| BlockReads.TouchKeepsMostRecent | src/core/io/CachingDevice.cpp:92-123 | moving a block to the front, or dropping the last to load one, keeps the most recently used |
| BlockReads.RecentIsByLastUse | src/core/io/CachingDevice.cpp:117-123 | the cache's order is the order of last use, newest first, so what is evicted is the least recently used |
| BlockCache.CachingDevice.EvictIfFull | src/core/io/CachingDevice.cpp:117-123 | drops the last block, and its map entry, only when the cache is full |
| BlockCache.CachingDevice.LoadBlock | src/core/io/CachingDevice.cpp:104-115 | a failed read changes nothing; a loaded block is the device's own and comes first |
| BlockCache.CachingDevice.FindBlock | src/core/io/CachingDevice.cpp:92-100 | held or not, the block is the device's own and comes first, and list and map stay in step |
| BlockCache.CachingDevice.CopyOneBlock | src/core/io/CachingDevice.cpp:79-90 | exactly the supplied bytes of the buffer change |
| BlockCache.CachingDevice.CopyThroughCache | src/core/io/CachingDevice.cpp:64-75 | the buffer is filled block by block as specified, or the first failure is reported |
| BlockCache.CachingDevice.Read | src/core/io/CachingDevice.cpp:46-52 | count, bytes and refusals are those of the cached read, the cache keeping at most its number of blocks in recency order |
| Arbitrating.TotalBytesIs | src/recovery/Arbitration.cpp:31-37 | the size is everything the candidate holds, as 64 bits keep it |
| Arbitrating.RankIsTheOrderPromised | src/recovery/Arbitration.cpp:39-54 | a candidate may go before another if and only if the other does not outrank it: a filesystem entry over a carve, then the more trusted, then the lower offset, then the larger |
| Arbitrating.IsBlocked | src/recovery/Arbitration.cpp:56-60 | true exactly when some extent of the candidate has a claimed byte |
| Arbitrating.AcceptOrSuppress | src/recovery/Arbitration.cpp:69-76 | a candidate wins whole and claims all its extents, or is counted and changes nothing |
| Arbitrating.Arbitrate | src/recovery/Arbitration.cpp:80-89 | the winners are those of offering the candidates in some order sorted by rank, and come out in order of start |
| Arbitrating.WinsExactly | src/recovery/Arbitration.cpp:56-76 | a candidate wins if and only if it is not rejected and shares no byte with a winner offered before it |
| Arbitrating.NothingIsLost | src/recovery/Arbitration.cpp:80-89 | winners and suppressed add up to the input, and every winner is an input candidate |
| Arbitrating.WinnersAreByStart | src/recovery/Arbitration.cpp:80-89 | no winner comes out before one whose first extent begins lower |
| Arbitrating.WinnersShareNoByte | src/recovery/Arbitration.cpp:62-76 | no device byte belongs to two winners |
| Arbitrating.SuppressedForAReason | src/recovery/Arbitration.cpp:47-76 | what is suppressed was rejected or shares a byte with a winner ranked no lower, so nothing a filesystem names is displaced by a carve |
| Arbitrating.RejectedNeverWins | src/recovery/Arbitration.cpp:70-73 | no winner is rejected |
| Arbitrating.ResidentAlwaysWins | src/recovery/Arbitration.cpp:24-29 | a candidate without extents is never displaced |
| ArbitrationOrder.WinnersAreTheStanding | src/recovery/Arbitration.cpp:56-76 | without rivals, how many copies of a candidate win is told from ranks and bytes alone: those that stand |
| ArbitrationOrder.OrderDoesNotMatter | src/recovery/Arbitration.cpp:39-54 | without rivals, winners and count are the same for every permutation of the input and every way of breaking ties |
| ArbitrationOrder.RunsAgreeExactly | src/recovery/Arbitration.cpp:39-54 | winners and count are the same for every permutation and every way of breaking ties if and only if no two candidates that stand tie over a byte |
| ArbitrationOrder.RivalsMayGoEitherWay | src/recovery/Arbitration.cpp:80-89 | of two rivals with none before them, each wins one run and loses another |
| ArbitrationOrder.ContestedTiesMayDiffer | src/recovery/Arbitration.cpp:47-54 | two carves of one byte, told apart by name alone, and a run each wins |
| Hashing.Sha256.FillPending | src/core/Sha256.cpp:41-47 | as much of the data as the buffer has room for, and what is left |
| Hashing.Sha256.Update | src/core/Sha256.cpp:49-59 | whatever was fed before, the state has folded every whole block of the message so far and the rest waits |
| Hashing.Sha256.AppendPadByte | src/core/Sha256.cpp:61-68 | one byte more, without counting it as message |
| Hashing.Sha256.PadToLengthField | src/core/Sha256.cpp:70-75 | terminates after the least number of zeros that reaches the length field |
| Hashing.Sha256.AbsorbTail | src/core/Sha256.cpp:77-83 | what was folded is the padded message |
| Hashing.Sha256.Finish | src/core/Sha256.cpp:85-88 | the digest is that of the fold over the padded message |
| Hashing.ZeroCountIsLeast | src/core/Sha256.cpp:70-75 | the zero count is the one section 5.1.1 of FIPS 180-4 asks for |
| Hashing.PaddedIs | src/core/Sha256.cpp:61-83 | the padded message is the message, 0x80, zeros, and its bit count in eight bytes, in whole blocks and no more of them than that takes |
| Hashing.InitialWordsAreRoots | include/revenant/core/Sha256.hpp:54-62 | the initial words are the first 32 fractional bits of the square roots of the first eight primes, as section 5.3.3 of FIPS 180-4 has them |
| Hashing.DigestReadsBack | src/core/Sha256.cpp:26-33 | the digest is the eight words of the state, most significant byte first |
| Hashing.PaddingIsInjective | src/core/Sha256.cpp:77-83 | no two messages the standard admits pad alike |
| Hashing.HashPieces | src/core/Sha256.cpp:49-88 | for every way of splitting a message into updates, the digest is that of the message |
| ExtendedChains.TableIsExact | src/volume/Mbr.cpp:38-137 | a sector parses if and only if it carries the signature and four valid slots, and then yields them all |
| ExtendedChains.LinkAt | src/volume/ExtendedChain.cpp:77-117 | a link that can be read lies on a sector of the device, and what it points at stays far inside 64 bits |
| ExtendedChains.LinkIsRead | src/volume/ExtendedChain.cpp:77-117 | a link is read exactly when its sector lies whole and readable on the device with a valid table in it, its partition's start counts from the link itself and its next address from where the chain began |
| ExtendedChains.ChainWalk.Step | src/volume/ExtendedChain.cpp:60-75 | one step follows exactly a link that is readable, new, not zero and under the cap, and folds its partition in |
| ExtendedChains.ChainWalk.Collect | src/volume/ExtendedChain.cpp:44-58 | terminates on every device, visiting each address at most once and no more links than there are sectors, with the partitions of exactly the links followed |
| ExtendedChains.LogicalPartitions | src/volume/ExtendedChain.cpp:128-131 | the partitions along the chain up to the first zero, repeated, unreadable or invalid link, or the cap |
| ExtendedChainCap.CapIsPassedExactly | src/volume/ExtendedChain.cpp:50-56 | more links are followed than the cap if and only if the chain goes on that long and a link before the cap holds no partition |
| ExtendedChainCap.EmptyChainIsFollowed | src/volume/ExtendedChain.cpp:44-75 | for every 32-bit count, a device whose chain of that many empty links is followed to its end |

## Left out

- The operating system under the session files: `fsync`, stream state and error codes. A file is the bytes that reached it, one durable change at a time, and a rename is one change.
- Failed writes: an append that fails lets the run go on and checkpoint past it, so the lost candidate is not searched for again on resume. The model has crashes, not failed writes.
- Read faults during a scan, except as the end of an attempt at any point: a scan of a region is a fixed candidate list, and a carver, with the plausibility floor applied to its verdict, a deterministic function of where it is asked to look.
- Filesystem mounters, and carvers other than JPEG and PNG: a filesystem walk is a fixed entry list.
- AVX2 and CPUID: the prefilter is any function that keeps the contract of `src/carve/PrefilterAvx2.hpp:31-36`.
- The SHA-256 compression function, a parameter of `Hashing`; and the digest as hexadecimal text.
- The choice of partition as part of what identifies a session, and the description digested into its shape: one request is fixed across all runs.
- Sessions.Recover: stops when the blob file, with what crashed runs left in it, would outgrow 64 bits; and an index whose lengths do not fit their 32-bit fields is outside `Feasible`.
- ClusterChains.FollowingIsExact: takes a geometry whose addresses stay inside 64 bits (`Fits`), which the FAT32 and exFAT boot-sector parsers guarantee with 32-bit counts; the parsers are not modelled.
- Schedule.Chunked: takes a positive chunk length, without which the source's loop does not end.
- BlockCache.CachingDevice.Read: the buffer's contents after a failed read are not described, as the source does not describe them.
- The primary partition table, GPT, and partition labels; an EBR's table is modelled in full.
- CLI grammar, summaries, manifests, platform identity and destination rules: tables and formatting, or calls into the system.
