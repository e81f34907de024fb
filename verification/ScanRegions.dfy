// Cutting the carve gaps into bounded chunks, and re-cutting what is left of
// them when a run resumes.
module Schedule {
  import opened Bytes
  import opened Regions
  import opened Candidates
  import opened Accounting

  // The part of a region at and past `cursor`.
  function TailOf(region: ScanRegion, cursor: nat): ScanRegion
    requires End(region) > cursor
  {
    var start := Max(region.offset, cursor);
    ScanRegion(start, End(region) - start)
  }

  function RemainingFrom(regions: seq<ScanRegion>, cursor: nat): seq<ScanRegion> {
    if regions == [] then []
    else if End(regions[0]) > cursor
    then [TailOf(regions[0], cursor)] + RemainingFrom(regions[1..], cursor)
    else RemainingFrom(regions[1..], cursor)
  }

  function Pieces(at: nat, end: nat, chunkBytes: nat): seq<ScanRegion>
    requires chunkBytes > 0
    decreases end - at
  {
    if at >= end then []
    else
      var length := Min(chunkBytes, end - at);
      [ScanRegion(at, length)] + Pieces(at + length, end, chunkBytes)
  }

  function Chunks(regions: seq<ScanRegion>, chunkBytes: nat): seq<ScanRegion>
    requires chunkBytes > 0
  {
    if regions == [] then []
    else Pieces(regions[0].offset, End(regions[0]), chunkBytes) + Chunks(regions[1..], chunkBytes)
  }

  method RegionsFrom(regions: seq<ScanRegion>, cursor: nat) returns (remaining: seq<ScanRegion>)
    ensures remaining == RemainingFrom(regions, cursor)
  {
    remaining := [];
    for i := 0 to |regions|
      invariant remaining + RemainingFrom(regions[i..], cursor) == RemainingFrom(regions, cursor)
    {
      assert regions[i..][1..] == regions[i + 1..];
      if End(regions[i]) > cursor {
        remaining := remaining + [TailOf(regions[i], cursor)];
      }
    }
  }

  method Chunked(regions: seq<ScanRegion>, chunkBytes: nat) returns (chunks: seq<ScanRegion>)
    requires chunkBytes > 0
    ensures chunks == Chunks(regions, chunkBytes)
  {
    chunks := [];
    for i := 0 to |regions|
      invariant chunks + Chunks(regions[i..], chunkBytes) == Chunks(regions, chunkBytes)
    {
      assert regions[i..][1..] == regions[i + 1..];
      var at := regions[i].offset;
      var end := End(regions[i]);
      ghost var before := chunks;
      while at < end
        invariant chunks + Pieces(at, end, chunkBytes) == before + Pieces(regions[i].offset, end, chunkBytes)
      {
        var length := Min(chunkBytes, end - at);
        chunks := chunks + [ScanRegion(at, length)];
        at := at + length;
      }
      assert chunks == before + Pieces(regions[i].offset, end, chunkBytes);
    }
  }

  lemma {:induction false} PiecesPartition(at: nat, end: nat, chunkBytes: nat)
    requires chunkBytes > 0 && at <= end
    ensures Ordered(Pieces(at, end, chunkBytes))
    ensures forall i :: 0 <= i < |Pieces(at, end, chunkBytes)| ==>
              var piece := Pieces(at, end, chunkBytes)[i];
              at <= piece.offset && End(piece) <= end && piece.lengthBytes <= chunkBytes
    ensures forall b :: SomeRegionHas(Pieces(at, end, chunkBytes), b) <==> at <= b < end
    decreases end - at
  {
    if at < end {
      var length := Min(chunkBytes, end - at);
      PiecesPartition(at + length, end, chunkBytes);
      OrderedConcat([ScanRegion(at, length)], Pieces(at + length, end, chunkBytes), at, at + length, end);
      hide Ordered, SomeRegionHas;
      forall b
        ensures SomeRegionHas(Pieces(at, end, chunkBytes), b) <==> at <= b < end
      {
        SomeRegionCons(Pieces(at, end, chunkBytes), b);
      }
    } else {
      NoRegionHas();
    }
  }

  lemma NoRegionHas()
    ensures forall b :: !SomeRegionHas([], b)
  {
  }

  lemma PiecesThenChunks(region: ScanRegion, pieces: seq<ScanRegion>, rest: seq<ScanRegion>)
    requires Ordered(pieces) && Ordered(rest)
    requires forall i :: 0 <= i < |pieces| ==> region.offset <= pieces[i].offset && End(pieces[i]) <= End(region)
    requires forall i :: 0 <= i < |rest| ==> End(region) <= rest[i].offset
    ensures Ordered(pieces + rest)
  {
  }

  // Cutting changes no byte of what is scanned: the chunks are ordered, bounded,
  // and hold exactly the bytes the regions held.
  lemma {:induction false} ChunksPartition(regions: seq<ScanRegion>, chunkBytes: nat)
    requires chunkBytes > 0 && Ordered(regions)
    ensures Ordered(Chunks(regions, chunkBytes))
    ensures forall i :: 0 <= i < |Chunks(regions, chunkBytes)| ==>
              Chunks(regions, chunkBytes)[i].lengthBytes <= chunkBytes
              && regions != [] && regions[0].offset <= Chunks(regions, chunkBytes)[i].offset
    ensures forall b :: SomeRegionHas(Chunks(regions, chunkBytes), b) <==> SomeRegionHas(regions, b)
  {
    if regions == [] {
    } else {
      var head, rest := Pieces(regions[0].offset, End(regions[0]), chunkBytes), Chunks(regions[1..], chunkBytes);
      PiecesPartition(regions[0].offset, End(regions[0]), chunkBytes);
      ChunksPartition(regions[1..], chunkBytes);
      PiecesThenChunks(regions[0], head, rest);
      hide Ordered, SomeRegionHas;
      forall b
        ensures SomeRegionHas(Chunks(regions, chunkBytes), b) <==> SomeRegionHas(regions, b)
      {
        SomeRegionConcat(head, rest, b);
        SomeRegionCons(regions, b);
      }
    }
  }

  // A chunk is as long as configured, unless it ends where its region does.
  ghost predicate FullOrLast(chunk: ScanRegion, regions: seq<ScanRegion>, chunkBytes: nat) {
    || chunk.lengthBytes == chunkBytes
    || exists r :: 0 <= r < |regions|
                   && chunk.offset + chunk.lengthBytes == regions[r].offset + regions[r].lengthBytes
  }

  lemma {:induction false} PiecesAreFull(at: nat, end: nat, chunkBytes: nat, i: nat)
    requires chunkBytes > 0 && i < |Pieces(at, end, chunkBytes)|
    ensures var piece := Pieces(at, end, chunkBytes)[i];
            piece.lengthBytes == chunkBytes || piece.offset + piece.lengthBytes == end
    decreases end - at
  {
    if i == 0 {
    } else {
      PiecesAreFull(at + Min(chunkBytes, end - at), end, chunkBytes, i - 1);
    }
  }

  lemma {:induction false} ChunksAreFull(regions: seq<ScanRegion>, chunkBytes: nat, i: nat)
    requires chunkBytes > 0 && i < |Chunks(regions, chunkBytes)|
    ensures FullOrLast(Chunks(regions, chunkBytes)[i], regions, chunkBytes)
  {
    var head := Pieces(regions[0].offset, End(regions[0]), chunkBytes);
    if i < |head| {
      PiecesAreFull(regions[0].offset, End(regions[0]), chunkBytes, i);
    } else {
      ChunksAreFull(regions[1..], chunkBytes, i - |head|);
      var chunk := Chunks(regions, chunkBytes)[i];
      assert chunk == Chunks(regions[1..], chunkBytes)[i - |head|];
      if r :| 0 <= r < |regions[1..]|
              && chunk.offset + chunk.lengthBytes == regions[1..][r].offset + regions[1..][r].lengthBytes {
        assert regions[r + 1] == regions[1..][r];
      }
    }
  }

  // ---- Resuming ----

  lemma {:induction false} PiecesResume(at: nat, end: nat, chunkBytes: nat, done: nat)
    requires chunkBytes > 0 && 0 < done <= |Pieces(at, end, chunkBytes)|
    ensures at < End(Pieces(at, end, chunkBytes)[done - 1]) <= end
    ensures Pieces(End(Pieces(at, end, chunkBytes)[done - 1]), end, chunkBytes)
            == Pieces(at, end, chunkBytes)[done..]
    decreases end - at
  {
    var pieces := Pieces(at, end, chunkBytes);
    var next := at + Min(chunkBytes, end - at);
    assert pieces[1..] == Pieces(next, end, chunkBytes);
    if done > 1 {
      PiecesResume(next, end, chunkBytes, done - 1);
      assert pieces[done - 1] == Pieces(next, end, chunkBytes)[done - 2];
      assert pieces[done..] == Pieces(next, end, chunkBytes)[done - 1..];
    }
  }

  lemma OrderedTail(regions: seq<ScanRegion>)
    requires Ordered(regions) && regions != []
    ensures Ordered(regions[1..]) && regions[0].lengthBytes > 0
    ensures |regions| > 1 ==> End(regions[0]) <= regions[1].offset
  {
  }

  lemma WholeTail(region: ScanRegion, cursor: nat)
    requires cursor <= region.offset && region.lengthBytes > 0
    ensures cursor < End(region) && TailOf(region, cursor) == region
  {
  }

  // A cursor in front of every region leaves them as they are.
  lemma {:induction false} RemainingIsAll(regions: seq<ScanRegion>, cursor: nat)
    requires Ordered(regions)
    requires regions != [] ==> cursor <= regions[0].offset
    ensures RemainingFrom(regions, cursor) == regions
  {
    hide Ordered;
    if regions == [] {
    } else {
      OrderedTail(regions);
      RemainingIsAll(regions[1..], cursor);
      WholeTail(regions[0], cursor);
    }
  }

  // A cursor past the first region drops it.
  lemma {:induction false} CursorInChunk(regions: seq<ScanRegion>, chunkBytes: nat, at: nat)
    requires chunkBytes > 0 && Ordered(regions) && at < |Chunks(regions, chunkBytes)|
    ensures regions != [] && regions[0].offset < End(Chunks(regions, chunkBytes)[at])
  {
    hide Ordered, Chunks;
    ChunksPartition(regions, chunkBytes);
    OrderedChunk(Chunks(regions, chunkBytes), at);
  }

  lemma OrderedChunk(chunks: seq<ScanRegion>, at: nat)
    requires Ordered(chunks) && at < |chunks|
    ensures chunks[at].lengthBytes > 0
  {
  }

  // The cursor stands inside, or at the end of, the first region.
  lemma ResumeInFirst(first: ScanRegion, rest: seq<ScanRegion>, chunkBytes: nat, cursor: nat)
    requires chunkBytes > 0 && Ordered(rest)
    requires rest != [] ==> End(first) <= rest[0].offset
    requires first.offset < cursor <= End(first)
    ensures Chunks(RemainingFrom([first] + rest, cursor), chunkBytes)
            == Pieces(cursor, End(first), chunkBytes) + Chunks(rest, chunkBytes)
  {
    RemainingIsAll(rest, cursor);
    assert ([first] + rest)[1..] == rest;
    if cursor < End(first) {
      var tail := TailOf(first, cursor);
      assert tail.offset == cursor && End(tail) == End(first);
      assert RemainingFrom([first] + rest, cursor) == [tail] + rest;
      assert ([tail] + rest)[1..] == rest;
    } else {
      assert RemainingFrom([first] + rest, cursor) == rest;
    }
  }

  // Re-cutting the gaps at the end of any chunk yields exactly the chunks that
  // were still to come: the same cuts, not merely the same bytes.
  lemma {:induction false} ResumedChunksAreTheRest(regions: seq<ScanRegion>, chunkBytes: nat, done: nat)
    requires chunkBytes > 0 && Ordered(regions)
    requires 0 < done <= |Chunks(regions, chunkBytes)|
    ensures Chunks(RemainingFrom(regions, End(Chunks(regions, chunkBytes)[done - 1])), chunkBytes)
            == Chunks(regions, chunkBytes)[done..]
  {
    hide Ordered, Pieces;
    var first, rest := regions[0], regions[1..];
    OrderedTail(regions);
    var head, tail := Pieces(first.offset, End(first), chunkBytes), Chunks(rest, chunkBytes);
    assert Chunks(regions, chunkBytes) == head + tail;
    var cursor := End((head + tail)[done - 1]);
    if done <= |head| {
      PiecesResume(first.offset, End(first), chunkBytes, done);
      assert regions == [first] + rest;
      ResumeInFirst(first, rest, chunkBytes, cursor);
      assert (head + tail)[done..] == head[done..] + tail;
    } else {
      var later := done - |head|;
      CursorInChunk(rest, chunkBytes, later - 1);
      ResumedChunksAreTheRest(rest, chunkBytes, later);
      assert RemainingFrom(regions, cursor) == RemainingFrom(rest, cursor);
      assert (head + tail)[done..] == tail[later..];
    }
  }

  // ---- What a whole run is scheduled to scan ----

  function CarveSchedule(entries: seq<RecoveredEntry>, deviceSize: nat, chunkBytes: nat): seq<ScanRegion>
    requires chunkBytes > 0
  {
    Chunks(RemainingFrom(AccountedGaps(entries, deviceSize), 0), chunkBytes)
  }

  lemma ScheduleCoversTheUnaccounted(entries: seq<RecoveredEntry>, deviceSize: nat, chunkBytes: nat)
    requires chunkBytes > 0
    ensures Ordered(CarveSchedule(entries, deviceSize, chunkBytes))
    ensures forall i :: 0 <= i < |CarveSchedule(entries, deviceSize, chunkBytes)| ==>
              CarveSchedule(entries, deviceSize, chunkBytes)[i].lengthBytes <= chunkBytes
    ensures forall i, j, at :: 0 <= i < j < |CarveSchedule(entries, deviceSize, chunkBytes)| ==>
              !(RegionHas(CarveSchedule(entries, deviceSize, chunkBytes)[i], at)
                && RegionHas(CarveSchedule(entries, deviceSize, chunkBytes)[j], at))
    ensures forall at :: SomeRegionHas(CarveSchedule(entries, deviceSize, chunkBytes), at) ==> 0 <= at < deviceSize
    ensures forall at :: 0 <= at < deviceSize && !Named(entries, at) ==>
              SomeRegionHas(CarveSchedule(entries, deviceSize, chunkBytes), at)
    ensures Account(entries).dropped == 0 ==>
              forall at :: SomeRegionHas(CarveSchedule(entries, deviceSize, chunkBytes), at) ==> !Named(entries, at)
  {
    hide Named;
    var gaps := AccountedGaps(entries, deviceSize);
    GapsAreUnaccounted(entries, deviceSize);
    RemainingIsAll(gaps, 0);
    ChunksPartition(gaps, chunkBytes);
    forall at | SomeRegionHas(gaps, at)
      ensures 0 <= at < deviceSize
    {
      var i :| 0 <= i < |gaps| && RegionHas(gaps[i], at);
      assert End(gaps[i]) <= deviceSize;
    }
  }
}
