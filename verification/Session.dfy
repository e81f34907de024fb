// A recovery run and its session: what a fresh and a resumed run append, when
// they say how far they got, and what any sequence of interrupted runs leaves.
//
// A run walks the filesystem once, then carves what the walk did not account
// for, a chunk at a time, and writes a checkpoint after each chunk. It may stop
// anywhere. `Durable` is what every state its files pass through satisfies:
// either the next run starts over, or the checkpoint it resumes from is true of
// the index. `Run` keeps it and `Recover` draws the conclusion.
module Sessions {
  import opened Bytes
  import opened Outcomes
  import opened Regions
  import opened Candidates
  import opened Accounting
  import opened Schedule
  import opened IndexFormat
  import opened CheckpointFile
  import opened CandidateIndexing

  datatype Mode = FilesystemOnly | Hybrid | CarveOnly

  // What walking the volume reports, and whether it mounted at all.
  datatype Walk = Walk(entries: seq<RecoveredEntry>, mounted: bool)

  // One request over one device. The device is fixed, so the filesystem walk is
  // one entry list and the scanner one candidate list per region.
  datatype Plan = Plan(
    mode: Mode,
    deviceSize: u64,
    walk: Walk,
    scan: ScanRegion -> seq<ScanCandidate>,
    checkpointBytes: nat,
    shape: Shape)

  // ---- What an uninterrupted run records ----

  function EntryCandidates(entries: seq<RecoveredEntry>): seq<Candidate> {
    if entries == [] then []
    else EntryCandidates(entries[..|entries| - 1]) + [OfEntry(entries[|entries| - 1])]
  }

  // A rejected match is reported to the visitor but never indexed.
  function Indexed(found: seq<ScanCandidate>): seq<Candidate> {
    if found == [] then []
    else
      var last := found[|found| - 1];
      Indexed(found[..|found| - 1]) + if last.confidence == REJECTED then [] else [OfCarve(last)]
  }

  function CarvedIn(plan: Plan, regions: seq<ScanRegion>): seq<Candidate> {
    if regions == [] then []
    else CarvedIn(plan, regions[..|regions| - 1]) + Indexed(plan.scan(regions[|regions| - 1]))
  }

  // The entries whose extents the carve pass may skip.
  function AccountedEntries(plan: Plan): seq<RecoveredEntry> {
    if plan.mode.CarveOnly? || !plan.walk.mounted then [] else plan.walk.entries
  }

  function PlannedGaps(plan: Plan): seq<ScanRegion> {
    AccountedGaps(AccountedEntries(plan), plan.deviceSize)
  }

  function PlannedChunks(plan: Plan): seq<ScanRegion>
    requires plan.checkpointBytes > 0
  {
    if plan.mode.FilesystemOnly? then [] else Chunks(PlannedGaps(plan), plan.checkpointBytes)
  }

  function WalkCandidates(plan: Plan): seq<Candidate> {
    if plan.mode.CarveOnly? then [] else EntryCandidates(plan.walk.entries)
  }

  // What the index holds once `k` chunks are scanned.
  function Recorded(plan: Plan, k: nat): seq<Candidate>
    requires plan.checkpointBytes > 0 && k <= |PlannedChunks(plan)|
  {
    WalkCandidates(plan) + CarvedIn(plan, PlannedChunks(plan)[..k])
  }

  function AllRecorded(plan: Plan): seq<Candidate>
    requires plan.checkpointBytes > 0
  {
    Recorded(plan, |PlannedChunks(plan)|)
  }

  function BlobSize(candidates: seq<Candidate>): nat {
    if candidates == [] then 0
    else |BlobEntry(candidates[0])| + BlobSize(candidates[1..])
  }

  // Every length fits its field, and the record file its offsets.
  ghost predicate Feasible(plan: Plan) {
    && plan.checkpointBytes > 0
    && AllStorable(AllRecorded(plan))
    && AreaBytes(|AllRecorded(plan)|) < U64_LIMIT
  }

  // ---- What makes a session worth resuming ----

  function Resumable(shape: Shape, file: Option<seq<byte>>): Option<Checkpoint> {
    match CheckpointFile.Read(file)
    case Err(_, _) => None
    case Ok(stored) => if stored.shape == shape then Some(stored) else None
  }

  // The checkpoint says chunk `k` was the last one scanned, and the index holds
  // at least what had been recorded by then.
  ghost predicate StandsAt(plan: Plan, disk: Disk, stored: Checkpoint, k: nat)
    requires plan.checkpointBytes > 0
  {
    && 0 < k <= |PlannedChunks(plan)|
    && stored.scanCursor == End(PlannedChunks(plan)[k - 1])
    && stored.indexRecords == |Recorded(plan, k)|
    && Holds(disk.records, disk.blob, Recorded(plan, k))
  }

  // Either the next run starts over (no checkpoint, one that cannot be read, or
  // one of another request), or what it resumes from is true. This is
  // what every state a run's files are ever in has to satisfy.
  ghost predicate Durable(plan: Plan, disk: Disk)
    requires plan.checkpointBytes > 0
  {
    Resumable(plan.shape, disk.checkpoint).Some? ==>
      exists k :: StandsAt(plan, disk, Resumable(plan.shape, disk.checkpoint).value, k)
  }

  ghost predicate DurableSince(plan: Plan, history: seq<Disk>, from: nat)
    requires plan.checkpointBytes > 0
  {
    forall i :: from <= i < |history| ==> Durable(plan, history[i])
  }

  // Appending, and truncating back to what the checkpoint counts, both leave a
  // durable session durable.
  lemma DurableAfter(plan: Plan, before: Disk, after: Disk)
    requires plan.checkpointBytes > 0 && Durable(plan, before)
    requires before.checkpoint == after.checkpoint && before.blob <= after.blob
    requires before.records <= after.records
             || (Resumable(plan.shape, before.checkpoint).Some?
                 && AreaBytes(Resumable(plan.shape, before.checkpoint).value.indexRecords) <= |after.records|
                 && after.records <= before.records)
    ensures Durable(plan, after)
  {
    hide Recorded, RecordHolds, HeaderBytes;
    var resumable := Resumable(plan.shape, before.checkpoint);
    if resumable.Some? {
      var k :| StandsAt(plan, before, resumable.value, k);
      HoldsAfterGrowth(before.records, before.blob, Recorded(plan, k), after.records, after.blob);
      assert StandsAt(plan, after, resumable.value, k);
    }
  }

  lemma DurableAfterGrowth(plan: Plan, history: seq<Disk>, from: nat, before: Disk)
    requires plan.checkpointBytes > 0 && Durable(plan, before) && OnlyGrew(history, from, before)
    ensures DurableSince(plan, history, from)
  {
    forall i | from <= i < |history|
      ensures Durable(plan, history[i])
    {
      DurableAfter(plan, before, history[i]);
    }
  }

  // A checkpoint written once chunk `k` is recorded is one to resume from.
  lemma DurableAtCheckpoint(plan: Plan, disk: Disk, k: nat)
    requires Feasible(plan) && 0 < k <= |PlannedChunks(plan)|
    requires Holds(disk.records, disk.blob, Recorded(plan, k))
    requires End(PlannedChunks(plan)[k - 1]) < U64_LIMIT && |Recorded(plan, k)| < U64_LIMIT
    requires disk.checkpoint
             == Some(Encode(Checkpoint(plan.shape, End(PlannedChunks(plan)[k - 1]), |Recorded(plan, k)|)))
    ensures Durable(plan, disk)
  {
    var stored := Checkpoint(plan.shape, End(PlannedChunks(plan)[k - 1]), |Recorded(plan, k)|);
    CheckpointRoundTrip(stored);
    assert StandsAt(plan, disk, stored, k);
  }

  // ---- The recorded sequence, a prefix at a time ----

  lemma {:induction false} EntryPrefix(entries: seq<RecoveredEntry>, i: nat)
    requires i <= |entries|
    ensures EntryCandidates(entries[..i]) <= EntryCandidates(entries)
    decreases |entries|
  {
    if i < |entries| {
      var shorter := entries[..|entries| - 1];
      EntryPrefix(shorter, i);
      assert shorter[..i] == entries[..i];
    } else {
      assert entries[..i] == entries;
    }
  }

  lemma {:induction false} IndexedPrefix(found: seq<ScanCandidate>, j: nat)
    requires j <= |found|
    ensures Indexed(found[..j]) <= Indexed(found)
    decreases |found|
  {
    if j < |found| {
      var shorter := found[..|found| - 1];
      IndexedPrefix(shorter, j);
      assert shorter[..j] == found[..j];
    } else {
      assert found[..j] == found;
    }
  }

  lemma {:induction false} CarvedPrefix(plan: Plan, regions: seq<ScanRegion>, k: nat)
    requires k <= |regions|
    ensures CarvedIn(plan, regions[..k]) <= CarvedIn(plan, regions)
    decreases |regions|
  {
    if k < |regions| {
      var shorter := regions[..|regions| - 1];
      CarvedPrefix(plan, shorter, k);
      assert shorter[..k] == regions[..k];
    } else {
      assert regions[..k] == regions;
    }
  }

  lemma RecordedStep(plan: Plan, k: nat)
    requires plan.checkpointBytes > 0 && k < |PlannedChunks(plan)|
    ensures Recorded(plan, k + 1) == Recorded(plan, k) + Indexed(plan.scan(PlannedChunks(plan)[k]))
  {
    var chunks := PlannedChunks(plan);
    assert chunks[..k + 1][..k] == chunks[..k];
  }

  lemma RecordedIsPrefix(plan: Plan, k: nat)
    requires plan.checkpointBytes > 0 && k <= |PlannedChunks(plan)|
    ensures Recorded(plan, k) <= AllRecorded(plan)
  {
    var chunks := PlannedChunks(plan);
    CarvedPrefix(plan, chunks, k);
    assert chunks[..|chunks|] == chunks;
  }

  lemma ChunkIsPrefix(plan: Plan, k: nat, j: nat)
    requires plan.checkpointBytes > 0 && k < |PlannedChunks(plan)|
    requires j <= |plan.scan(PlannedChunks(plan)[k])|
    ensures Recorded(plan, k) + Indexed(plan.scan(PlannedChunks(plan)[k])[..j]) <= AllRecorded(plan)
  {
    RecordedStep(plan, k);
    RecordedIsPrefix(plan, k + 1);
    IndexedPrefix(plan.scan(PlannedChunks(plan)[k]), j);
  }

  lemma WalkIsPrefix(plan: Plan, i: nat)
    requires plan.checkpointBytes > 0 && !plan.mode.CarveOnly? && i <= |plan.walk.entries|
    ensures EntryCandidates(plan.walk.entries[..i]) <= AllRecorded(plan)
  {
    EntryPrefix(plan.walk.entries, i);
  }

  // ---- Room left in the blob ----

  // The blob can still take everything the run has yet to append.
  ghost predicate Room(plan: Plan, blobBytes: nat, held: seq<Candidate>)
    requires plan.checkpointBytes > 0
  {
    held <= AllRecorded(plan) && blobBytes + BlobSize(AllRecorded(plan)[|held|..]) < U64_LIMIT
  }

  lemma RoomForOne(plan: Plan, blobBytes: nat, held: seq<Candidate>, c: Candidate)
    requires plan.checkpointBytes > 0 && Room(plan, blobBytes, held) && held + [c] <= AllRecorded(plan)
    ensures blobBytes + |BlobEntry(c)| < U64_LIMIT && Room(plan, blobBytes + |BlobEntry(c)|, held + [c])
  {
    var rest := AllRecorded(plan)[|held|..];
    assert rest[0] == c && rest[1..] == AllRecorded(plan)[|held + [c]|..];
  }

  lemma {:induction false} BlobSizeOfSuffix(candidates: seq<Candidate>, n: nat)
    requires n <= |candidates|
    ensures BlobSize(candidates[n..]) <= BlobSize(candidates)
  {
    if n == 0 {
    } else {
      BlobSizeOfSuffix(candidates[1..], n - 1);
      assert candidates[1..][n - 1..] == candidates[n..];
    }
  }

  // ---- Opening ----

  method FreshSession(files: SessionFiles, plan: Plan) returns (index: CandidateIndex)
    requires files.Valid() && plan.checkpointBytes > 0
    modifies files
    ensures fresh(index) && index.files == files && index.Holding([]) && files.blob == []
    ensures Durable(plan, files.Now())
    ensures old(files.history) <= files.history
    ensures DurableSince(plan, files.history, |old(files.history)|)
  {
    files.ClearCheckpoint();
    index := new CandidateIndex.Create(files);
  }

  // Keeps the first `records` candidates and drops everything after them; an
  // index holding fewer is refused.
  method Reopen(files: SessionFiles, records: nat) returns (index: Option<CandidateIndex>)
    requires files.Valid()
    modifies files
    ensures index.None? <==> |old(files.records)| < AreaBytes(records)
    ensures index.None? ==> files.Now() == old(files.Now()) && files.history == old(files.history) && files.Valid()
    ensures index.Some? ==>
              && fresh(index.value) && index.value.files == files && files.Valid()
              && index.value.blobBytes == |files.blob| && index.value.count == records
              && files.Now() == old(files.Now()).(records := old(files.records)[..AreaBytes(records)])
              && files.history == old(files.history) + [files.Now()]
  {
    if |files.records| < AreaBytes(records) {
      return None;
    }
    files.ResizeRecords(AreaBytes(records));
    var continued := new CandidateIndex.Continued(files, records);
    index := Some(continued);
  }

  // Resumes when the index holds what the checkpoint counts, and starts over
  // when it does not.
  method ContinuedSession(files: SessionFiles, plan: Plan, stored: Checkpoint)
    returns (index: CandidateIndex, resumeFrom: Option<u64>)
    requires files.Valid() && plan.checkpointBytes > 0
    modifies files
    ensures fresh(index) && index.files == files && files.Valid()
    ensures old(files.history) <= files.history
    ensures resumeFrom.Some? <==> AreaBytes(stored.indexRecords) <= |old(files.records)|
    ensures resumeFrom.None? ==>
              && index.Holding([]) && files.blob == [] && Durable(plan, files.Now())
              && DurableSince(plan, files.history, |old(files.history)|)
    ensures resumeFrom.Some? ==>
              && resumeFrom.value == stored.scanCursor
              && index.blobBytes == |files.blob| && index.count == stored.indexRecords
              && files.Now() == old(files.Now()).(records := old(files.records)[..AreaBytes(stored.indexRecords)])
              && files.history == old(files.history) + [files.Now()]
  {
    var reopened := Reopen(files, stored.indexRecords);
    if reopened.None? {
      index := FreshSession(files, plan);
      return index, None;
    }
    return reopened.value, Some(stored.scanCursor);
  }

  // Where a run picks up: `k` is how many chunks the session says are done.
  method OpenSession(files: SessionFiles, plan: Plan)
    returns (index: CandidateIndex, resumeFrom: Option<u64>, ghost k: nat)
    requires files.Valid() && Feasible(plan) && Durable(plan, files.Now())
    modifies files
    ensures fresh(index) && index.files == files && |files.blob| <= old(|files.blob|)
    ensures resumeFrom.Some? <==> Resumable(plan.shape, old(files.checkpoint)).Some?
    ensures resumeFrom.None? ==> index.Holding([])
    ensures resumeFrom.Some? ==>
              && 0 < k <= |PlannedChunks(plan)| && resumeFrom.value == End(PlannedChunks(plan)[k - 1])
              && index.Holding(Recorded(plan, k))
    ensures Durable(plan, files.Now())
    ensures old(files.history) <= files.history
    ensures DurableSince(plan, files.history, |old(files.history)|)
  {
    hide RecordHolds, Recorded, HeaderBytes, Resumable, PlannedChunks, AllStorable, AllRecorded;
    k := 0;
    var stored := Resumable(plan.shape, files.checkpoint);
    if stored.None? {
      index := FreshSession(files, plan);
      return index, None, 0;
    }
    ghost var before := files.Now();
    k :| StandsAt(plan, before, stored.value, k);
    index, resumeFrom := ContinuedSession(files, plan, stored.value);
    DurableAfter(plan, before, files.Now());
    HoldsAfterGrowth(before.records, before.blob, Recorded(plan, k), files.records, files.blob);
  }

  // ---- Running ----

  // What may go wrong in one attempt, besides a crash. Chunks are counted from
  // where the attempt picks up.
  datatype Attempt = Attempt(
    lostAfter: Option<nat>,         // the source goes away after this many entries
    faultAt: Option<(nat, nat)>,    // reading this chunk fails after this many finds
    interruptAt: Option<nat>)       // the run is asked to stop after this chunk

  datatype ScanTotals = ScanTotals(candidates: nat, regions: nat, complete: bool, scannedUpTo: nat)

  // The index holds `held`, a prefix of the whole recording, with room for the
  // rest, and every state of its files since `start` is durable.
  ghost predicate OnTrack(plan: Plan, index: CandidateIndex, held: seq<Candidate>, start: nat)
    requires plan.checkpointBytes > 0
    reads index, index.files
  {
    && index.Holding(held) && Room(plan, |index.files.blob|, held)
    && Durable(plan, index.files.Now()) && DurableSince(plan, index.files.history, start)
  }

  method AppendNext(index: CandidateIndex, plan: Plan, c: Candidate, ghost held: seq<Candidate>, ghost start: nat)
    requires plan.checkpointBytes > 0
    requires OnTrack(plan, index, held, start) && held + [c] <= AllRecorded(plan)
    modifies index, index.files
    ensures OnTrack(plan, index, held + [c], start)
    ensures old(index.files.history) <= index.files.history
  {
    hide Holds, AllRecorded, Resumable, StandsAt;
    RoomForOne(plan, |index.files.blob|, held, c);
    ghost var before := index.files.Now();
    ghost var from := |index.files.history|;
    index.Append(c, held);
    DurableAfterGrowth(plan, index.files.history, from, before);
    DurableAfter(plan, before, index.files.Now());
  }

  lemma OnTrackIsDurable(plan: Plan, index: CandidateIndex, held: seq<Candidate>, start: nat)
    requires plan.checkpointBytes > 0 && OnTrack(plan, index, held, start)
    ensures DurableSince(plan, index.files.history, start) && index.files.Valid()
  {
    hide Holds, AllRecorded, Durable;
  }

  // The walk, teed into the byte accounting. A resumed run accounts for the
  // entries again and appends none of them.
  method RunFilesystemPass(index: CandidateIndex, plan: Plan, resumed: bool, attempt: Attempt,
                           ghost held: seq<Candidate>, ghost start: nat)
    returns (failed: Option<ErrorCode>, accounting: ByteAccounting)
    requires Feasible(plan) && OnTrack(plan, index, held, start)
    requires !resumed ==> held == []
    modifies index, index.files
    ensures fresh(accounting) && fresh(accounting.claimed) && accounting.Valid()
    ensures old(index.files.history) <= index.files.history
    ensures DurableSince(plan, index.files.history, start) && index.files.Valid()
    ensures attempt.lostAfter.None? && (plan.mode != FilesystemOnly || plan.walk.mounted) ==> failed.None?
    ensures failed.None? ==> plan.mode != FilesystemOnly || plan.walk.mounted
    ensures failed.None? ==>
              && accounting.State() == AddExtents(Accounted([], 0), AllSpoken(AccountedEntries(plan)))
              && OnTrack(plan, index, if resumed then held else WalkCandidates(plan), start)
  {
    hide OnTrack, DurableSince, Account, AllStorable, AllRecorded, EntryCandidates, OfEntry, Spoken;
    OnTrackIsDurable(plan, index, held, start);
    accounting := new ByteAccounting();
    if plan.mode.CarveOnly? {
      return None, accounting;
    }
    var entries := plan.walk.entries;
    ghost var appended := held;
    NoEntriesYet(entries);
    for i := 0 to |entries|
      invariant accounting.Valid()
      invariant accounting.State() == AddExtents(Accounted([], 0), AllSpoken(entries[..i]))
      invariant appended == if resumed then held else EntryCandidates(entries[..i])
      invariant OnTrack(plan, index, appended, start)
      invariant DurableSince(plan, index.files.history, start) && index.files.Valid()
      invariant old(index.files.history) <= index.files.history
    {
      if attempt.lostAfter == Some(i) {
        return Some(SourceLost), accounting;
      }
      AccountStep(entries, i);
      accounting.AccountFor(entries[i]);
      assert entries[..i + 1][..i] == entries[..i];
      if !resumed {
        WalkIsPrefix(plan, i + 1);
        EntryStep(entries, i);
        AppendNext(index, plan, OfEntry(entries[i]), appended, start);
        appended := appended + [OfEntry(entries[i])];
        OnTrackIsDurable(plan, index, appended, start);
      }
    }
    assert entries[..|entries|] == entries;
    if attempt.lostAfter == Some(|entries|) {
      return Some(SourceLost), accounting;
    }
    if plan.walk.mounted {
      return None, accounting;
    }
    if plan.mode.FilesystemOnly? {
      return Some(InvalidArgument), accounting;
    }
    accounting := new ByteAccounting();
    failed := None;
  }

  lemma NoEntriesYet(entries: seq<RecoveredEntry>)
    ensures EntryCandidates(entries[..0]) == [] && AllSpoken(entries[..0]) == []
  {
  }

  lemma EntryStep(entries: seq<RecoveredEntry>, i: nat)
    requires i < |entries|
    ensures EntryCandidates(entries[..i + 1]) == EntryCandidates(entries[..i]) + [OfEntry(entries[i])]
  {
    assert entries[..i + 1][..i] == entries[..i];
  }

  lemma AccountStep(entries: seq<RecoveredEntry>, i: nat)
    requires i < |entries|
    ensures AddExtents(Accounted([], 0), AllSpoken(entries[..i + 1]))
            == AddExtents(AddExtents(Accounted([], 0), AllSpoken(entries[..i])), Spoken(entries[i]))
  {
    assert entries[..i + 1] == entries[..i] + [entries[i]];
    AllSpokenConcat(entries[..i], [entries[i]]);
    assert AllSpoken([entries[i]]) == Spoken(entries[i]);
    AddExtentsConcat(Accounted([], 0), AllSpoken(entries[..i]), Spoken(entries[i]));
  }

  // What the carve pass has left to do, as cut from the gaps alone.
  method CarveRegions(plan: Plan, accounting: ByteAccounting, resumeFrom: Option<u64>, ghost k: nat)
    returns (chunks: seq<ScanRegion>)
    requires plan.checkpointBytes > 0
    requires accounting.Valid()
    requires accounting.State() == AddExtents(Accounted([], 0), AllSpoken(AccountedEntries(plan)))
    requires resumeFrom.None? ==> k == 0
    requires resumeFrom.Some? ==>
               0 < k <= |PlannedChunks(plan)| && resumeFrom.value == End(PlannedChunks(plan)[k - 1])
    ensures k <= |PlannedChunks(plan)| && chunks == PlannedChunks(plan)[k..]
  {
    if plan.mode.FilesystemOnly? {
      return [];
    }
    GapsAreUnaccounted(AccountedEntries(plan), plan.deviceSize);
    var gaps := accounting.Gaps(plan.deviceSize);
    if resumeFrom.Some? {
      ResumedChunksAreTheRest(gaps, plan.checkpointBytes, k);
    } else {
      RemainingIsAll(gaps, 0);
    }
    var remaining := RegionsFrom(gaps, if resumeFrom.Some? then resumeFrom.value else 0);
    chunks := Chunked(remaining, plan.checkpointBytes);
  }

  // One chunk scanned: every candidate the scanner reports reaches the index,
  // rejected ones excepted. Nothing is reported of a chunk the device failed in.
  method ScanNextRegion(index: CandidateIndex, plan: Plan, region: ScanRegion, stopAfter: Option<nat>,
                        ghost k: nat, ghost start: nat)
    returns (reported: Option<nat>)
    requires Feasible(plan) && k < |PlannedChunks(plan)| && region == PlannedChunks(plan)[k]
    requires OnTrack(plan, index, Recorded(plan, k), start)
    modifies index, index.files
    ensures old(index.files.history) <= index.files.history
    ensures DurableSince(plan, index.files.history, start) && index.files.Valid()
    ensures reported.Some? ==>
              reported.value == |plan.scan(region)| && OnTrack(plan, index, Recorded(plan, k + 1), start)
    ensures reported.None? <==> stopAfter.Some? && stopAfter.value <= |plan.scan(region)|
  {
    hide OnTrack, DurableSince, AllStorable, AllRecorded, Recorded, PlannedChunks, Indexed, OfCarve;
    var found := plan.scan(region);
    ghost var held := Recorded(plan, k);
    OnTrackIsDurable(plan, index, held, start);
    NothingFoundYet(found);
    for j := 0 to |found|
      invariant held == Recorded(plan, k) + Indexed(found[..j])
      invariant OnTrack(plan, index, held, start)
      invariant DurableSince(plan, index.files.history, start) && index.files.Valid()
      invariant old(index.files.history) <= index.files.history
      invariant stopAfter.Some? ==> stopAfter.value >= j
    {
      if stopAfter == Some(j) {
        return None;
      }
      ChunkIsPrefix(plan, k, j + 1);
      IndexedStep(found, j);
      if found[j].confidence != REJECTED {
        assert Recorded(plan, k) + (Indexed(found[..j]) + [OfCarve(found[j])]) == held + [OfCarve(found[j])];
        AppendNext(index, plan, OfCarve(found[j]), held, start);
        held := held + [OfCarve(found[j])];
        OnTrackIsDurable(plan, index, held, start);
      }
    }
    assert found[..|found|] == found;
    RecordedStep(plan, k);
    if stopAfter == Some(|found|) {
      return None;
    }
    reported := Some(|found|);
  }

  lemma NothingFoundYet(found: seq<ScanCandidate>)
    ensures Indexed(found[..0]) == []
  {
  }

  lemma IndexedStep(found: seq<ScanCandidate>, j: nat)
    requires j < |found|
    ensures Indexed(found[..j + 1])
            == Indexed(found[..j]) + if found[j].confidence == REJECTED then [] else [OfCarve(found[j])]
  {
    assert found[..j + 1][..j] == found[..j];
  }

  lemma ChunksEndOnTheDevice(plan: Plan, k: nat)
    requires plan.checkpointBytes > 0 && k < |PlannedChunks(plan)|
    ensures PlannedChunks(plan)[k].lengthBytes > 0 && End(PlannedChunks(plan)[k]) <= plan.deviceSize
  {
    var gaps := PlannedGaps(plan);
    GapsAreUnaccounted(AccountedEntries(plan), plan.deviceSize);
    ChunksPartition(gaps, plan.checkpointBytes);
    var chunk := PlannedChunks(plan)[k];
    assert RegionHas(chunk, End(chunk) - 1);
    assert SomeRegionHas(gaps, End(chunk) - 1);
    var i :| 0 <= i < |gaps| && RegionHas(gaps[i], End(chunk) - 1);
    assert End(gaps[i]) <= plan.deviceSize;
  }

  lemma RecordedCountFits(plan: Plan, k: nat)
    requires Feasible(plan) && k <= |PlannedChunks(plan)|
    ensures |Recorded(plan, k)| < U64_LIMIT
  {
    RecordedIsPrefix(plan, k);
  }

  // The checkpoint between chunks. Returns whether to carry on.
  method OnScanned(index: CandidateIndex, plan: Plan, cursor: u64, interrupted: bool, ghost k: nat, ghost start: nat)
    returns (carryOn: bool)
    requires Feasible(plan) && 0 < k <= |PlannedChunks(plan)| && cursor == End(PlannedChunks(plan)[k - 1])
    requires OnTrack(plan, index, Recorded(plan, k), start)
    modifies index.files
    ensures OnTrack(plan, index, Recorded(plan, k), start)
    ensures Resumable(plan.shape, index.files.checkpoint)
            == Some(Checkpoint(plan.shape, End(PlannedChunks(plan)[k - 1]), |Recorded(plan, k)|))
    ensures old(index.files.history) <= index.files.history
    ensures carryOn == !interrupted
  {
    hide Holds, Recorded, AllRecorded, PlannedChunks, Encode, Durable, Room, AllStorable, CheckpointFile.Read;
    RecordedCountFits(plan, k);
    var stored := Checkpoint(plan.shape, cursor, index.count);
    CheckpointRoundTrip(stored);
    index.files.ReplaceCheckpoint(Encode(stored));
    DurableAtCheckpoint(plan, index.files.Now(), k);
    carryOn := !interrupted;
  }

  // How many chunks an attempt scans: all, or up to and with the one after which
  // it is asked to stop.
  function ChunksReached(attempt: Attempt, chunks: nat): (reached: nat)
    ensures reached <= chunks
  {
    if attempt.interruptAt.Some? && attempt.interruptAt.value < chunks then attempt.interruptAt.value + 1 else chunks
  }

  // The device fails in one of the first `upTo` chunks.
  predicate FaultsWithin(plan: Plan, regions: seq<ScanRegion>, attempt: Attempt, upTo: nat)
    requires upTo <= |regions|
  {
    && attempt.faultAt.Some? && attempt.faultAt.value.0 < upTo
    && attempt.faultAt.value.1 <= |plan.scan(regions[attempt.faultAt.value.0])|
  }

  function FoundIn(plan: Plan, regions: seq<ScanRegion>): nat {
    if regions == [] then 0
    else FoundIn(plan, regions[..|regions| - 1]) + |plan.scan(regions[|regions| - 1])|
  }

  // What the carve pass comes to after `scanned` of its chunks.
  function TotalsAfter(plan: Plan, regions: seq<ScanRegion>, scanned: nat): ScanTotals
    requires scanned <= |regions|
  {
    ScanTotals(FoundIn(plan, regions[..scanned]), scanned, scanned == |regions|,
               if scanned == 0 then 0 else End(regions[scanned - 1]))
  }

  lemma FoundStep(plan: Plan, regions: seq<ScanRegion>, scanned: nat)
    requires scanned < |regions|
    ensures FoundIn(plan, regions[..scanned + 1]) == FoundIn(plan, regions[..scanned]) + |plan.scan(regions[scanned])|
  {
    assert regions[..scanned + 1][..scanned] == regions[..scanned];
  }

  // The carve pass, chunk by chunk, each one checkpointed once it is scanned. It
  // fails exactly when the device does in a chunk it reaches, and otherwise has
  // recorded the chunks it reached: complete exactly when that is all of them, an
  // interrupt after the last one included.
  method ScanRegions(index: CandidateIndex, plan: Plan, regions: seq<ScanRegion>, attempt: Attempt,
                     ghost done: nat, ghost start: nat)
    returns (totals: Option<ScanTotals>)
    requires Feasible(plan) && done <= |PlannedChunks(plan)| && regions == PlannedChunks(plan)[done..]
    requires OnTrack(plan, index, Recorded(plan, done), start)
    modifies index, index.files
    ensures old(index.files.history) <= index.files.history
    ensures DurableSince(plan, index.files.history, start) && index.files.Valid()
    ensures totals.None? <==> FaultsWithin(plan, regions, attempt, ChunksReached(attempt, |regions|))
    ensures totals.Some? ==>
              && totals.value == TotalsAfter(plan, regions, ChunksReached(attempt, |regions|))
              && OnTrack(plan, index, Recorded(plan, done + totals.value.regions), start)
  {
    hide OnTrack, DurableSince, AllStorable, AllRecorded, Recorded, PlannedChunks, FoundIn, Resumable;
    var candidates, scanned, scannedUpTo := 0, 0, 0;
    OnTrackIsDurable(plan, index, Recorded(plan, done), start);
    NothingScannedYet(plan, regions);
    while scanned < |regions|
      invariant 0 <= scanned <= |regions|
      invariant OnTrack(plan, index, Recorded(plan, done + scanned), start)
      invariant DurableSince(plan, index.files.history, start) && index.files.Valid()
      invariant old(index.files.history) <= index.files.history
      invariant !FaultsWithin(plan, regions, attempt, scanned)
      invariant attempt.interruptAt.Some? ==> scanned <= attempt.interruptAt.value
      invariant candidates == FoundIn(plan, regions[..scanned])
      invariant scannedUpTo == if scanned == 0 then 0 else End(regions[scanned - 1])
    {
      var region := regions[scanned];
      ChunksEndOnTheDevice(plan, done + scanned);
      FoundStep(plan, regions, scanned);
      var stopAfter := if attempt.faultAt.Some? && attempt.faultAt.value.0 == scanned
                       then Some(attempt.faultAt.value.1) else None;
      var reported := ScanNextRegion(index, plan, region, stopAfter, done + scanned, start);
      if reported.None? {
        return None;
      }
      candidates := candidates + reported.value;
      scanned := scanned + 1;
      scannedUpTo := End(region);
      var carryOn := OnScanned(index, plan, End(region), attempt.interruptAt == Some(scanned - 1), done + scanned, start);
      OnTrackIsDurable(plan, index, Recorded(plan, done + scanned), start);
      if !carryOn {
        break;
      }
    }
    totals := Some(ScanTotals(candidates, scanned, scanned == |regions|, scannedUpTo));
  }

  lemma NothingScannedYet(plan: Plan, regions: seq<ScanRegion>)
    ensures FoundIn(plan, regions[..0]) == 0
  {
  }

  lemma AllRecordedIs(plan: Plan)
    requires plan.checkpointBytes > 0
    ensures AllRecorded(plan) == Recorded(plan, |PlannedChunks(plan)|)
  {
  }

  datatype RunEnd = Complete | StoppedShort | Failed

  // The walk, then what is left to carve. However it ends, every state its files
  // pass through is one the next run may start from; and when it completes, the
  // index reads back as the uninterrupted recording.
  method RunFrom(index: CandidateIndex, plan: Plan, resumeFrom: Option<u64>, attempt: Attempt,
                 ghost k: nat, ghost start: nat)
    returns (end: RunEnd)
    requires Feasible(plan) && (resumeFrom.None? ==> k == 0)
    requires resumeFrom.Some? ==>
               0 < k <= |PlannedChunks(plan)| && resumeFrom.value == End(PlannedChunks(plan)[k - 1])
    requires OnTrack(plan, index, StartingFrom(plan, resumeFrom, k), start)
    modifies index, index.files
    ensures old(index.files.history) <= index.files.history
    ensures DurableSince(plan, index.files.history, start) && index.files.Valid()
    ensures end.Complete? ==>
              IndexIn(index.files.records, index.files.blob) == Expected(AllRecorded(plan), false)
    ensures attempt == Attempt(None, None, None) && (plan.mode != FilesystemOnly || plan.walk.mounted) ==> end.Complete?
    ensures end.Complete? ==> plan.mode != FilesystemOnly || plan.walk.mounted
  {
    hide OnTrack, DurableSince, AllRecorded, Recorded, AllStorable, PlannedChunks, IndexIn, Expected,
         WalkCandidates, FaultsWithin, ChunksReached, FoundIn;
    var failed, accounting :=
      RunFilesystemPass(index, plan, resumeFrom.Some?, attempt, StartingFrom(plan, resumeFrom, k), start);
    if failed.Some? {
      return Failed;
    }
    NothingCarvedYet(plan);
    var regions := CarveRegions(plan, accounting, resumeFrom, k);
    UndisturbedReachesAll(plan, regions);
    var totals := ScanRegions(index, plan, regions, attempt, k, start);
    if totals.None? {
      return Failed;
    }
    if !totals.value.complete {
      return StoppedShort;
    }
    AllRecordedIs(plan);
    OnTrackReads(plan, index, start);
    end := Complete;
  }

  // What the index holds when a run picks up.
  function StartingFrom(plan: Plan, resumeFrom: Option<u64>, k: nat): seq<Candidate>
    requires plan.checkpointBytes > 0 && (resumeFrom.Some? ==> k <= |PlannedChunks(plan)|)
  {
    if resumeFrom.Some? then Recorded(plan, k) else []
  }

  lemma UndisturbedReachesAll(plan: Plan, regions: seq<ScanRegion>)
    ensures ChunksReached(Attempt(None, None, None), |regions|) == |regions|
    ensures !FaultsWithin(plan, regions, Attempt(None, None, None), |regions|)
  {
  }

  // One whole run: open the session, walk, carve what is left.
  method Run(files: SessionFiles, plan: Plan, attempt: Attempt) returns (end: RunEnd)
    requires files.Valid() && Feasible(plan) && Durable(plan, files.Now())
    requires |files.blob| + BlobSize(AllRecorded(plan)) < U64_LIMIT
    modifies files
    ensures files.Valid()
    ensures old(files.history) <= files.history
    ensures DurableSince(plan, files.history, |old(files.history)|)
    ensures end.Complete? ==> IndexIn(files.records, files.blob) == Expected(AllRecorded(plan), false)
    ensures attempt == Attempt(None, None, None) && (plan.mode != FilesystemOnly || plan.walk.mounted) ==> end.Complete?
    ensures end.Complete? ==> plan.mode != FilesystemOnly || plan.walk.mounted
  {
    hide OnTrack, DurableSince, Room, Holds, AllRecorded, Recorded, Resumable, Durable, AllStorable, PlannedChunks,
         IndexIn, Expected;
    ghost var start := |files.history|;
    var index, resumeFrom, k := OpenSession(files, plan);
    if resumeFrom.None? {
      k := 0;
    }
    RoomAtStart(plan, |files.blob|, k, StartingFrom(plan, resumeFrom, k));
    OnTrackAtStart(plan, index, StartingFrom(plan, resumeFrom, k), start);
    end := RunFrom(index, plan, resumeFrom, attempt, k, start);
  }

  lemma OnTrackAtStart(plan: Plan, index: CandidateIndex, held: seq<Candidate>, start: nat)
    requires plan.checkpointBytes > 0
    requires index.Holding(held) && Room(plan, |index.files.blob|, held)
    requires Durable(plan, index.files.Now()) && DurableSince(plan, index.files.history, start)
    ensures OnTrack(plan, index, held, start)
  {
    hide DurableSince, Room, Durable;
  }

  lemma OnTrackReads(plan: Plan, index: CandidateIndex, start: nat)
    requires Feasible(plan) && OnTrack(plan, index, AllRecorded(plan), start)
    ensures IndexIn(index.files.records, index.files.blob) == Expected(AllRecorded(plan), false)
  {
    hide DurableSince, Durable, Room, AllRecorded, Holds, IndexIn, Expected;
    HeldIndexIsRead(index.files.records, index.files.blob, AllRecorded(plan));
  }

  lemma RoomAtStart(plan: Plan, blobBytes: nat, k: nat, held: seq<Candidate>)
    requires plan.checkpointBytes > 0 && blobBytes + BlobSize(AllRecorded(plan)) < U64_LIMIT
    requires held == [] || (k <= |PlannedChunks(plan)| && held == Recorded(plan, k))
    ensures Room(plan, blobBytes, held)
  {
    if held != [] {
      RecordedIsPrefix(plan, k);
    }
    BlobSizeOfSuffix(AllRecorded(plan), |held|);
  }

  lemma NothingCarvedYet(plan: Plan)
    requires plan.checkpointBytes > 0
    ensures Recorded(plan, 0) == WalkCandidates(plan)
  {
  }

  // An attempt, and the durable change after which a crash ends it. `None`, or
  // more changes than the attempt makes, lets it end by itself.
  datatype Trial = Trial(attempt: Attempt, crashAfter: Option<nat>)

  // Any number of attempts over one session directory, each ended by itself, by
  // the operator, by the device, or by a crash at any durable change. Whenever
  // one of them completes, the index holds exactly what the uninterrupted run
  // would have recorded: each filesystem entry once, then each chunk's
  // candidates once, in order.
  method Recover(files: SessionFiles, plan: Plan, trials: seq<Trial>) returns (ends: seq<Option<RunEnd>>)
    requires files.Valid() && Feasible(plan) && Durable(plan, files.Now())
    modifies files
    ensures files.Valid() && Durable(plan, files.Now())
    ensures |ends| <= |trials|
    ensures |ends| < |trials| ==> |files.blob| + BlobSize(AllRecorded(plan)) >= U64_LIMIT
    ensures ends != [] && ends[|ends| - 1] == Some(Complete) ==>
              IndexIn(files.records, files.blob) == Expected(AllRecorded(plan), false)
    ensures |ends| == |trials| > 0 && (plan.mode != FilesystemOnly || plan.walk.mounted)
            && trials[|trials| - 1] == Trial(Attempt(None, None, None), None) ==>
              ends[|ends| - 1] == Some(Complete)
  {
    hide Holds, AllRecorded, StandsAt, Durable, AllStorable, IndexIn, Expected;
    ends := [];
    while |ends| < |trials|
      invariant files.Valid() && Durable(plan, files.Now())
      invariant |ends| <= |trials|
      invariant ends != [] && ends[|ends| - 1] == Some(Complete) ==>
                  IndexIn(files.records, files.blob) == Expected(AllRecorded(plan), false)
      invariant ends != [] && (plan.mode != FilesystemOnly || plan.walk.mounted)
                && trials[|ends| - 1] == Trial(Attempt(None, None, None), None) ==>
                  ends[|ends| - 1] == Some(Complete)
      decreases |trials| - |ends|
    {
      // The blob keeps what crashed runs left in it; past the widest offset no
      // file system would take another run's entries.
      if |files.blob| + BlobSize(AllRecorded(plan)) >= U64_LIMIT {
        return;
      }
      var trial := trials[|ends|];
      var start := |files.history|;
      ghost var before := files.Now();
      var end := Run(files, plan, trial.attempt);
      if trial.crashAfter.Some? && start - 1 + trial.crashAfter.value < |files.history| {
        var at := start - 1 + trial.crashAfter.value;
        assert at == start - 1 ==> files.history[at] == before;
        files.Crash(at);
        ends := ends + [None];
      } else {
        ends := ends + [Some(end)];
      }
    }
  }
}
