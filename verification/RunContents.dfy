// What a completed run leaves in its index, spelled out.
module RunContents {
  import opened Bytes
  import opened Outcomes
  import opened Regions
  import opened Candidates
  import opened Accounting
  import opened Schedule
  import opened IndexFormat
  import opened CheckpointFile
  import opened Sessions

  // Where a candidate of the index comes from: an entry of the walk, or a find of
  // one planned chunk's scan.
  datatype Origin = Walked(entry: nat) | Found(chunk: nat, find: nat)

  ghost predicate NamesEntry(c: Candidate, entry: RecoveredEntry) {
    && c.name == entry.path && c.extents == entry.extents && c.residentContent == entry.residentContent
    && c.timestamps == entry.timestamps && c.confidence == entry.recoverability && c.source == 0
  }

  // The bytes a candidate's extents run over.
  ghost predicate RunsOver(c: Candidate, at: int) {
    exists i :: 0 <= i < |c.extents|
                && c.extents[i].deviceOffset <= at < c.extents[i].deviceOffset + c.extents[i].lengthBytes
  }

  ghost predicate NamesFind(c: Candidate, found: ScanCandidate) {
    && c.source == 1 && c.confidence == found.confidence && c.name == found.extension
    && |c.extents| == 1 && c.residentContent == [] && c.timestamps == Timestamps(0, 0, 0)
    && forall at :: RunsOver(c, at) <==> found.offset <= at < found.offset + found.length
  }

  // A find the index is to hold, and where the plan has it.
  ghost predicate IsFind(plan: Plan, chunk: nat, find: nat)
    requires plan.checkpointBytes > 0
  {
    && chunk < |PlannedChunks(plan)| && find < |plan.scan(PlannedChunks(plan)[chunk])|
    && plan.scan(PlannedChunks(plan)[chunk])[find].confidence != 0
  }

  ghost predicate IsWalked(plan: Plan, entry: nat) {
    plan.mode != CarveOnly && entry < |plan.walk.entries|
  }

  ghost predicate IsOrigin(plan: Plan, origin: Origin)
    requires plan.checkpointBytes > 0
  {
    match origin
    case Walked(entry) => IsWalked(plan, entry)
    case Found(chunk, find) => IsFind(plan, chunk, find)
  }

  // Within what the reader materializes at most.
  ghost predicate IsReadable(plan: Plan, origin: Origin)
    requires plan.checkpointBytes > 0 && IsOrigin(plan, origin)
  {
    match origin
    case Walked(i) =>
      var entry := plan.walk.entries[i];
      |entry.path| <= 4096 && |entry.extents| <= 4096 && |entry.residentContent| <= 65536
    case Found(chunk, find) => |plan.scan(PlannedChunks(plan)[chunk])[find].extension| <= 4096
  }

  ghost predicate ComesFrom(plan: Plan, c: Candidate, origin: Origin)
    requires plan.checkpointBytes > 0
  {
    match origin
    case Walked(entry) => IsWalked(plan, entry) && NamesEntry(c, plan.walk.entries[entry])
    case Found(chunk, find) =>
      IsFind(plan, chunk, find) && NamesFind(c, plan.scan(PlannedChunks(plan)[chunk])[find])
  }

  // Entries in the order walked, then finds chunk by chunk in the order reported.
  predicate Precedes(a: Origin, b: Origin) {
    match a
    case Walked(i) => b.Found? || i < b.entry
    case Found(k, j) => b.Found? && (k < b.chunk || (k == b.chunk && j < b.find))
  }

  ghost predicate InOrder(origins: seq<Origin>) {
    forall x, y :: 0 <= x < y < |origins| ==> Precedes(origins[x], origins[y])
  }

  // Each candidate comes from its origin.
  ghost predicate Traced(plan: Plan, candidates: seq<Candidate>, origins: seq<Origin>)
    requires plan.checkpointBytes > 0
  {
    && |candidates| == |origins| && InOrder(origins)
    && forall n :: 0 <= n < |candidates| ==> ComesFrom(plan, candidates[n], origins[n])
  }

  // ---- The walk ----

  lemma {:induction false} EntriesTraced(plan: Plan, count: nat) returns (origins: seq<Origin>)
    requires plan.checkpointBytes > 0 && plan.mode != CarveOnly && count <= |plan.walk.entries|
    ensures Traced(plan, EntryCandidates(plan.walk.entries[..count]), origins)
    ensures forall o :: o in origins <==> o.Walked? && o.entry < count
    decreases count
  {
    if count == 0 {
      origins := [];
    } else {
      var before := EntriesTraced(plan, count - 1);
      origins := before + [Walked(count - 1)];
      assert plan.walk.entries[..count][..count - 1] == plan.walk.entries[..count - 1];
      LastComesLast(before, Walked(count - 1));
    }
  }

  lemma LastComesLast(before: seq<Origin>, last: Origin)
    requires InOrder(before) && forall o :: o in before ==> Precedes(o, last)
    ensures InOrder(before + [last])
  {
    hide Precedes;
    var all := before + [last];
    forall x, y | 0 <= x < y < |all|
      ensures Precedes(all[x], all[y])
    {
      assert all[x] in before;
    }
  }

  // ---- The finds ----

  lemma FindIsNamed(found: ScanCandidate)
    ensures NamesFind(OfCarve(found), found)
  {
    var c := OfCarve(found);
    assert c.extents == [Extent(found.offset, found.length)];
    forall at
      ensures RunsOver(c, at) <==> found.offset <= at < found.offset + found.length
    {
      assert c.extents[0].deviceOffset == found.offset && c.extents[0].lengthBytes == found.length;
    }
  }

  // The finds of one chunk, up to `count`.
  lemma {:induction false} FindsTraced(plan: Plan, chunk: nat, count: nat) returns (origins: seq<Origin>)
    requires plan.checkpointBytes > 0 && chunk < |PlannedChunks(plan)|
    requires count <= |plan.scan(PlannedChunks(plan)[chunk])|
    ensures Traced(plan, Indexed(plan.scan(PlannedChunks(plan)[chunk])[..count]), origins)
    ensures forall o :: o in origins <==>
              o.Found? && o.chunk == chunk && o.find < count && IsFind(plan, o.chunk, o.find)
    decreases count
  {
    hide NamesFind, PlannedChunks, OfCarve;
    var found := plan.scan(PlannedChunks(plan)[chunk]);
    if count == 0 {
      origins := [];
    } else {
      var before := FindsTraced(plan, chunk, count - 1);
      IndexedStep(found, count - 1);
      FindIsNamed(found[count - 1]);
      hide Indexed;
      if found[count - 1].confidence == 0 {
        origins := before;
      } else {
        origins := before + [Found(chunk, count - 1)];
        LastComesLast(before, Found(chunk, count - 1));
      }
    }
  }

  lemma JoinedInOrder(a: seq<Origin>, b: seq<Origin>)
    requires InOrder(a) && InOrder(b) && forall o, p :: o in a && p in b ==> Precedes(o, p)
    ensures InOrder(a + b)
  {
    hide Precedes;
    var all := a + b;
    forall x, y | 0 <= x < y < |all|
      ensures Precedes(all[x], all[y])
    {
      if x < |a| && y >= |a| {
        assert all[x] in a && all[y] in b;
      }
    }
  }

  lemma TracedJoined(plan: Plan, a: seq<Candidate>, aFrom: seq<Origin>, b: seq<Candidate>, bFrom: seq<Origin>)
    requires plan.checkpointBytes > 0 && Traced(plan, a, aFrom) && Traced(plan, b, bFrom)
    requires forall o, p :: o in aFrom && p in bFrom ==> Precedes(o, p)
    ensures Traced(plan, a + b, aFrom + bFrom)
  {
    hide ComesFrom, Precedes;
    JoinedInOrder(aFrom, bFrom);
    hide InOrder;
  }

  lemma {:induction false} ChunksTraced(plan: Plan, count: nat) returns (origins: seq<Origin>)
    requires plan.checkpointBytes > 0 && count <= |PlannedChunks(plan)|
    ensures Traced(plan, CarvedIn(plan, PlannedChunks(plan)[..count]), origins)
    ensures forall o :: o in origins <==> o.Found? && o.chunk < count && IsFind(plan, o.chunk, o.find)
    decreases count
  {
    hide PlannedChunks, Indexed, ComesFrom;
    if count == 0 {
      origins := [];
    } else {
      var chunks := PlannedChunks(plan);
      var found := plan.scan(chunks[count - 1]);
      var before := ChunksTraced(plan, count - 1);
      var here := FindsTraced(plan, count - 1, |found|);
      assert found[..|found|] == found;
      assert chunks[..count][..count - 1] == chunks[..count - 1];
      origins := before + here;
      TracedJoined(plan, CarvedIn(plan, chunks[..count - 1]), before, Indexed(found), here);
    }
  }

  // ---- What is planned to be carved ----

  // A trusted entry of the walk speaks for the byte, and the walk counts.
  ghost predicate SpokenFor(plan: Plan, at: int) {
    plan.mode != CarveOnly && plan.walk.mounted && Named(plan.walk.entries, at)
  }

  predicate Reaches(region: ScanRegion, at: int) {
    region.offset <= at < region.offset + region.lengthBytes
  }

  lemma AccountedAreSpokenFor(plan: Plan, at: int)
    ensures Named(AccountedEntries(plan), at) <==> SpokenFor(plan, at)
  {
  }

  // Nothing is carved of a run over the file system alone. Otherwise the chunks are
  // in order and on the device, and each is as long as configured, unless the
  // device ends there or a trusted entry's bytes begin.
  lemma ChunksAreCut(plan: Plan, k: nat)
    requires plan.checkpointBytes > 0 && k < |PlannedChunks(plan)|
    ensures plan.mode != FilesystemOnly
    ensures var chunk := PlannedChunks(plan)[k];
            var end := chunk.offset + chunk.lengthBytes;
            && 0 < chunk.lengthBytes <= plan.checkpointBytes && end <= plan.deviceSize
            && (chunk.lengthBytes == plan.checkpointBytes || end == plan.deviceSize || SpokenFor(plan, end))
            && forall j :: 0 <= j < k ==>
                 PlannedChunks(plan)[j].offset + PlannedChunks(plan)[j].lengthBytes <= chunk.offset
  {
    hide SpokenFor, Chunks, AccountedGaps, Named, AccountedEntries;
    var entries, gaps := AccountedEntries(plan), PlannedGaps(plan);
    var chunk := PlannedChunks(plan)[k];
    GapsAreUnaccounted(entries, plan.deviceSize);
    ChunksPartition(gaps, plan.checkpointBytes);
    ChunksEndOnTheDevice(plan, k);
    ChunksAreFull(gaps, plan.checkpointBytes, k);
    AccountedAreSpokenFor(plan, End(chunk));
    if r :| 0 <= r < |gaps| && chunk.offset + chunk.lengthBytes == gaps[r].offset + gaps[r].lengthBytes {
      GapsEndAtTheNamed(entries, plan.deviceSize, r);
    }
  }

  // Every byte no trusted entry speaks for is in a chunk; and while there are no
  // more than 65536 trusted extents, no other byte is.
  lemma PlanIsCarved(plan: Plan, at: nat)
    requires plan.checkpointBytes > 0 && plan.mode != FilesystemOnly
    ensures at < plan.deviceSize && !SpokenFor(plan, at) ==>
              exists k :: 0 <= k < |PlannedChunks(plan)| && Reaches(PlannedChunks(plan)[k], at)
    ensures |AllSpoken(AccountedEntries(plan))| <= 65536 ==>
              forall k :: 0 <= k < |PlannedChunks(plan)| && Reaches(PlannedChunks(plan)[k], at) ==> !SpokenFor(plan, at)
  {
    hide SpokenFor, Chunks, AccountedGaps, Named, AccountedEntries, AddExtents, AllSpoken;
    var entries, chunks := AccountedEntries(plan), PlannedChunks(plan);
    GapsAreUnaccounted(entries, plan.deviceSize);
    ChunksPartition(PlannedGaps(plan), plan.checkpointBytes);
    AccountedAreSpokenFor(plan, at);
    if |AllSpoken(entries)| <= 65536 {
      FewAreKept(Accounted([], 0), AllSpoken(entries));
    }
    if at < plan.deviceSize && !SpokenFor(plan, at) {
      var k :| 0 <= k < |chunks| && RegionHas(chunks[k], at);
      assert Reaches(chunks[k], at);
    }
    forall k | 0 <= k < |chunks| && Reaches(chunks[k], at)
      ensures SomeRegionHas(chunks, at)
    {
      assert RegionHas(chunks[k], at);
    }
  }

  // What a stored checkpoint resumes: only one of this request, as it was stored.
  lemma ResumableIs(shape: Shape, file: Option<seq<byte>>, c: Checkpoint)
    ensures Resumable(shape, file) == Some(c) <==> c.shape == shape && file.Some? && HoldsCheckpoint(file.value, c)
  {
    hide HoldsCheckpoint, CheckpointFile.Read;
    if file.Some? {
      CheckpointIsRead(file.value, c);
      assert CheckpointFile.Read(file) == CheckpointFile.Read(Some(file.value));
    } else {
      NoFileIsRead();
    }
  }

  lemma NoFileIsRead()
    ensures CheckpointFile.Read(None) == Err(NotFound, 0)
  {
  }

  // ---- The whole recording ----

  // What an uninterrupted run records: each walked entry, then each find that is
  // not rejected, every one of them once and in order, and nothing else.
  lemma RecordingIsTraced(plan: Plan) returns (origins: seq<Origin>)
    requires plan.checkpointBytes > 0
    ensures Traced(plan, AllRecorded(plan), origins)
    ensures forall o :: IsOrigin(plan, o) ==> o in origins
  {
    hide PlannedChunks, CarvedIn, EntryCandidates, ComesFrom;
    var chunks := PlannedChunks(plan);
    var carved := ChunksTraced(plan, |chunks|);
    assert chunks[..|chunks|] == chunks;
    var walked: seq<Origin> := [];
    if plan.mode != CarveOnly {
      walked := EntriesTraced(plan, |plan.walk.entries|);
      assert plan.walk.entries[..|plan.walk.entries|] == plan.walk.entries;
    }
    origins := walked + carved;
    TracedJoined(plan, WalkCandidates(plan), walked, CarvedIn(plan, chunks), carved);
  }

  // ---- Read back ----

  // The origins of the candidates the reader's bounds admit.
  ghost function AdmittedOrigins(candidates: seq<Candidate>, origins: seq<Origin>): seq<Origin>
    requires |candidates| == |origins|
  {
    if candidates == [] then []
    else
      var last := |candidates| - 1;
      AdmittedOrigins(candidates[..last], origins[..last]) + if Admitted(candidates[last]) then [origins[last]] else []
  }

  // What the reader materializes at most.
  predicate Admitted(c: Candidate) {
    |c.name| <= 4096 && |c.extents| <= 4096 && |c.residentContent| <= 65536
  }

  lemma {:induction false} AdmittedTraced(plan: Plan, candidates: seq<Candidate>, origins: seq<Origin>)
    requires plan.checkpointBytes > 0 && Traced(plan, candidates, origins)
    ensures Traced(plan, Kept(candidates), AdmittedOrigins(candidates, origins))
    ensures forall o :: o in AdmittedOrigins(candidates, origins) ==> o in origins
    ensures forall n :: 0 <= n < |candidates| && Admitted(candidates[n]) ==>
              origins[n] in AdmittedOrigins(candidates, origins)
    decreases |candidates|
  {
    hide ComesFrom, Precedes;
    if candidates == [] {
    } else {
      var last := |candidates| - 1;
      var before := AdmittedOrigins(candidates[..last], origins[..last]);
      AdmittedTraced(plan, candidates[..last], origins[..last]);
      forall o | o in before
        ensures Precedes(o, origins[last])
      {
        assert o in origins[..last];
      }
      LastComesLast(before, origins[last]);
    }
  }

  // What a completed run's index reads back as. Every candidate in it is a walked
  // entry or a find that was not rejected, told from it field by field and byte by
  // byte, in order; every such entry and find within the reader's bounds is there;
  // and the rest are counted as dropped.
  lemma CompletedIndexIsTraced(plan: Plan, records: seq<byte>, blob: seq<byte>)
      returns (contents: IndexContents, origins: seq<Origin>)
    requires plan.checkpointBytes > 0 && |AllRecorded(plan)| <= 0x10_0000
    requires IndexIn(records, blob) == Expected(AllRecorded(plan), false)
    ensures IndexIn(records, blob) == Ok(contents)
    ensures Traced(plan, contents.candidates, origins)
    ensures forall o :: IsOrigin(plan, o) && IsReadable(plan, o) ==> o in origins
    ensures |contents.candidates| + contents.droppedRecords == |AllRecorded(plan)|
  {
    hide PlannedChunks, AllRecorded, AdmittedOrigins, Kept, IndexIn, Precedes;
    var all := RecordingIsTraced(plan);
    var recorded := AllRecorded(plan);
    AdmittedTraced(plan, recorded, all);
    KeptOfInBounds(recorded);
    origins := AdmittedOrigins(recorded, all);
    contents := IndexContents(Kept(recorded), |recorded| - |Kept(recorded)|);
    forall o | IsOrigin(plan, o) && IsReadable(plan, o)
      ensures o in origins
    {
      var n :| 0 <= n < |all| && all[n] == o;
      ReadableIsAdmitted(plan, recorded[n], o);
    }
  }

  lemma ReadableIsAdmitted(plan: Plan, c: Candidate, origin: Origin)
    requires plan.checkpointBytes > 0 && IsOrigin(plan, origin) && IsReadable(plan, origin)
    requires ComesFrom(plan, c, origin)
    ensures Admitted(c)
  {
    hide PlannedChunks, RunsOver;
  }
}
