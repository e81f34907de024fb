// The fused interval map under byte accounting and arbitration, as the set of
// bytes it claims.
module Regions {
  import opened Bytes

  // A device-relative byte range (`fs::Extent`).
  datatype Extent = Extent(deviceOffset: u64, lengthBytes: u64)

  // Where a scan looks (`carve::ScanRegion`).
  datatype ScanRegion = ScanRegion(offset: nat, lengthBytes: nat)

  function End(region: ScanRegion): nat {
    region.offset + region.lengthBytes
  }

  predicate RegionHas(region: ScanRegion, at: int) {
    region.offset <= at < End(region)
  }

  ghost predicate SomeRegionHas(regions: seq<ScanRegion>, at: int) {
    exists i :: 0 <= i < |regions| && RegionHas(regions[i], at)
  }

  // In offset order, disjoint, and never zero-length.
  ghost predicate Ordered(regions: seq<ScanRegion>) {
    && (forall i :: 0 <= i < |regions| ==> regions[i].lengthBytes > 0)
    && (forall i, j :: 0 <= i < j < |regions| ==> End(regions[i]) <= regions[j].offset)
  }

  // One past the extent's last byte, saturating at the widest offset.
  function EndOf(extent: Extent): (end: u64)
    ensures extent.deviceOffset <= end
  {
    if extent.lengthBytes > U64_MAX - extent.deviceOffset
    then U64_MAX
    else extent.deviceOffset + extent.lengthBytes
  }

  // The bytes an extent names, of those below the widest offset.
  predicate ExtentHas(extent: Extent, at: int) {
    extent.deviceOffset <= at < extent.deviceOffset + extent.lengthBytes && at < 0xFFFF_FFFF_FFFF_FFFF
  }

  // The end at which it saturates bounds exactly those bytes.
  lemma EndBoundsTheBytes(extent: Extent, at: int)
    ensures ExtentHas(extent, at) <==> extent.deviceOffset <= at < EndOf(extent)
  {
  }

  // A claimed half-open range, one entry of the map.
  datatype Span = Span(start: u64, finish: u64)

  predicate SpanHas(span: Span, at: int) {
    span.start <= at < span.finish
  }

  ghost predicate Covers(spans: seq<Span>, at: int) {
    exists i :: 0 <= i < |spans| && SpanHas(spans[i], at)
  }

  // A claimed range holds a byte, except for what saturation makes of an
  // extent starting at the widest offset: MAX -> MAX.
  predicate SoundSpan(span: Span) {
    span.start < span.finish || span.start == span.finish == U64_MAX
  }

  // The map in key order: sound ranges, any two of them strictly apart.
  ghost predicate Fused(spans: seq<Span>) {
    && (forall i :: 0 <= i < |spans| ==> SoundSpan(spans[i]))
    && (forall i, j :: 0 <= i < j < |spans| ==> spans[i].finish < spans[j].start)
  }

  function Fuse(a: Span, b: Span): Span {
    Span(if a.start < b.start then a.start else b.start,
         if a.finish < b.finish then b.finish else a.finish)
  }

  // The map after claiming one more range, as an insertion into a sorted list.
  function Insert(spans: seq<Span>, claimed: Span): seq<Span> {
    if spans == [] then [claimed]
    else if spans[0].finish < claimed.start then [spans[0]] + Insert(spans[1..], claimed)
    else if claimed.finish < spans[0].start then [claimed] + spans
    else Insert(spans[1..], Fuse(spans[0], claimed))
  }

  function Claim(spans: seq<Span>, extent: Extent): seq<Span> {
    if extent.lengthBytes == 0 then spans
    else Insert(spans, Span(extent.deviceOffset, EndOf(extent)))
  }

  function ClaimAll(spans: seq<Span>, extents: seq<Extent>): seq<Span>
    decreases |extents|
  {
    if extents == [] then spans else ClaimAll(Claim(spans, extents[0]), extents[1..])
  }

  lemma {:induction false} CoversCons(spans: seq<Span>, at: int)
    requires spans != []
    ensures Covers(spans, at) <==> SpanHas(spans[0], at) || Covers(spans[1..], at)
  {
    if Covers(spans[1..], at) {
      var i :| 0 <= i < |spans[1..]| && SpanHas(spans[1..][i], at);
      assert SpanHas(spans[i + 1], at);
    }
    if Covers(spans, at) && !SpanHas(spans[0], at) {
      var i :| 0 <= i < |spans| && SpanHas(spans[i], at);
      assert spans[1..][i - 1] == spans[i];
    }
  }

  // Inserting keeps the map fused, and leaves everything in front of it alone.
  lemma {:induction false} InsertIsFused(spans: seq<Span>, claimed: Span, floor: int)
    requires Fused(spans) && SoundSpan(claimed)
    requires floor < claimed.start && forall i :: 0 <= i < |spans| ==> floor < spans[i].start
    ensures Fused(Insert(spans, claimed))
    ensures forall i :: 0 <= i < |Insert(spans, claimed)| ==> floor < Insert(spans, claimed)[i].start
  {
    if spans == [] {
    } else if spans[0].finish < claimed.start {
      InsertIsFused(spans[1..], claimed, spans[0].finish);
    } else if claimed.finish < spans[0].start {
    } else {
      InsertIsFused(spans[1..], Fuse(spans[0], claimed), floor);
    }
  }

  lemma {:induction false} InsertAddsOne(spans: seq<Span>, claimed: Span)
    ensures |Insert(spans, claimed)| <= |spans| + 1
  {
    if spans == [] {
    } else {
      InsertAddsOne(spans[1..], claimed);
      InsertAddsOne(spans[1..], Fuse(spans[0], claimed));
    }
  }

  // Inserting is union of byte sets.
  lemma {:induction false} InsertIsUnion(spans: seq<Span>, claimed: Span, at: int)
    requires Fused(spans) && SoundSpan(claimed)
    ensures Covers(Insert(spans, claimed), at) <==> Covers(spans, at) || SpanHas(claimed, at)
  {
    if spans == [] {
      assert Insert(spans, claimed) == [claimed];
      CoversCons([claimed], at);
    } else if spans[0].finish < claimed.start {
      InsertIsUnion(spans[1..], claimed, at);
      CoversCons(spans, at);
      var inserted := Insert(spans, claimed);
      assert inserted[1..] == Insert(spans[1..], claimed);
      CoversCons(inserted, at);
    } else if claimed.finish < spans[0].start {
      assert ([claimed] + spans)[1..] == spans;
      CoversCons([claimed] + spans, at);
    } else {
      InsertIsUnion(spans[1..], Fuse(spans[0], claimed), at);
      CoversCons(spans, at);
    }
  }

  // Claiming an extent adds exactly its bytes.
  lemma ClaimIsUnion(spans: seq<Span>, extent: Extent)
    requires Fused(spans)
    ensures Fused(Claim(spans, extent))
    ensures forall at :: Covers(Claim(spans, extent), at) <==> Covers(spans, at) || ExtentHas(extent, at)
  {
    if extent.lengthBytes > 0 {
      var claimed := Span(extent.deviceOffset, EndOf(extent));
      InsertIsFused(spans, claimed, -1);
      forall at
        ensures Covers(Claim(spans, extent), at) <==> Covers(spans, at) || ExtentHas(extent, at)
      {
        InsertIsUnion(spans, claimed, at);
        EndBoundsTheBytes(extent, at);
      }
    }
  }

  lemma ClaimIs(spans: seq<Span>, extent: Extent)
    ensures Claim(spans, extent)
            == if extent.lengthBytes == 0 then spans else Insert(spans, Span(extent.deviceOffset, EndOf(extent)))
  {
  }

  lemma ClaimAddsTheBytes(spans: seq<Span>, extent: Extent)
    requires Fused(spans)
    ensures Fused(Claim(spans, extent))
    ensures forall at :: Covers(Claim(spans, extent), at) <==>
              Covers(spans, at)
              || (extent.deviceOffset <= at < extent.deviceOffset + extent.lengthBytes && at < U64_MAX)
  {
    hide Covers, Claim, Fused;
    ClaimIsUnion(spans, extent);
  }

  ghost predicate SomeExtentHas(extents: seq<Extent>, at: int) {
    exists i :: 0 <= i < |extents| && ExtentHas(extents[i], at)
  }

  lemma {:induction false} SomeExtentCons(extents: seq<Extent>, at: int)
    requires extents != []
    ensures SomeExtentHas(extents, at) <==> ExtentHas(extents[0], at) || SomeExtentHas(extents[1..], at)
  {
    if SomeExtentHas(extents[1..], at) {
      var i :| 0 <= i < |extents[1..]| && ExtentHas(extents[1..][i], at);
      assert ExtentHas(extents[i + 1], at);
    }
    if SomeExtentHas(extents, at) && !ExtentHas(extents[0], at) {
      var i :| 0 <= i < |extents| && ExtentHas(extents[i], at);
      assert extents[1..][i - 1] == extents[i];
    }
  }

  lemma {:induction false} ClaimAllIsUnion(spans: seq<Span>, extents: seq<Extent>)
    requires Fused(spans)
    ensures Fused(ClaimAll(spans, extents))
    ensures forall at :: Covers(ClaimAll(spans, extents), at) <==> Covers(spans, at) || SomeExtentHas(extents, at)
    decreases |extents|
  {
    if extents == [] {
    } else {
      ClaimIsUnion(spans, extents[0]);
      ClaimAllIsUnion(Claim(spans, extents[0]), extents[1..]);
      forall at
        ensures SomeExtentHas(extents, at) <==> ExtentHas(extents[0], at) || SomeExtentHas(extents[1..], at)
      {
        SomeExtentCons(extents, at);
      }
    }
  }

  // ---- The complement inside [0, deviceSize) ----

  // The gap between the cursor and `upTo`, when the two straddle any bytes.
  function GapUpTo(cursor: nat, upTo: nat): seq<ScanRegion> {
    if upTo <= cursor then [] else [ScanRegion(cursor, upTo - cursor)]
  }

  function GapsFrom(spans: seq<Span>, cursor: nat, deviceSize: nat): seq<ScanRegion> {
    if spans == [] then GapUpTo(cursor, deviceSize)
    else
      GapUpTo(cursor, Min(spans[0].start, deviceSize))
      + GapsFrom(spans[1..], Max(cursor, Min(spans[0].finish, deviceSize)), deviceSize)
  }

  lemma SomeRegionConcat(a: seq<ScanRegion>, b: seq<ScanRegion>, at: int)
    ensures SomeRegionHas(a + b, at) <==> SomeRegionHas(a, at) || SomeRegionHas(b, at)
  {
    if SomeRegionHas(a, at) {
      var i :| 0 <= i < |a| && RegionHas(a[i], at);
      assert (a + b)[i] == a[i];
    }
    if SomeRegionHas(b, at) {
      var i :| 0 <= i < |b| && RegionHas(b[i], at);
      assert (a + b)[|a| + i] == b[i];
    }
    if SomeRegionHas(a + b, at) {
      var i :| 0 <= i < |a + b| && RegionHas((a + b)[i], at);
      assert i < |a| || b[i - |a|] == (a + b)[i];
    }
  }

  lemma SomeRegionCons(regions: seq<ScanRegion>, at: int)
    requires regions != []
    ensures SomeRegionHas(regions, at) <==> RegionHas(regions[0], at) || SomeRegionHas(regions[1..], at)
  {
    SomeRegionConcat([regions[0]], regions[1..], at);
    assert [regions[0]] + regions[1..] == regions;
    assert SomeRegionHas([regions[0]], at) <==> RegionHas([regions[0]][0], at);
  }

  lemma OrderedConcat(a: seq<ScanRegion>, b: seq<ScanRegion>, low: nat, middle: nat, high: nat)
    requires Ordered(a) && Ordered(b) && low <= middle <= high
    requires forall i :: 0 <= i < |a| ==> low <= a[i].offset && End(a[i]) <= middle
    requires forall i :: 0 <= i < |b| ==> middle <= b[i].offset && End(b[i]) <= high
    ensures Ordered(a + b)
    ensures forall i :: 0 <= i < |a + b| ==> low <= (a + b)[i].offset && End((a + b)[i]) <= high
  {
  }

  // A region's bytes are those from its offset to its literal end.
  lemma RegionBytes(regions: seq<ScanRegion>, at: int)
    ensures SomeRegionHas(regions, at) <==>
            exists i :: 0 <= i < |regions| && regions[i].offset <= at < regions[i].offset + regions[i].lengthBytes
  {
    if i :| 0 <= i < |regions| && regions[i].offset <= at < regions[i].offset + regions[i].lengthBytes {
      assert RegionHas(regions[i], at);
    }
  }

  lemma {:induction false} GapsAreOrdered(spans: seq<Span>, cursor: nat, deviceSize: nat)
    requires Fused(spans) && cursor <= deviceSize
    ensures Ordered(GapsFrom(spans, cursor, deviceSize))
    ensures forall i :: 0 <= i < |GapsFrom(spans, cursor, deviceSize)| ==>
              cursor <= GapsFrom(spans, cursor, deviceSize)[i].offset
              && End(GapsFrom(spans, cursor, deviceSize)[i]) <= deviceSize
  {
    if spans == [] {
    } else {
      var next := Max(cursor, Min(spans[0].finish, deviceSize));
      GapsAreOrdered(spans[1..], next, deviceSize);
      OrderedConcat(GapUpTo(cursor, Min(spans[0].start, deviceSize)), GapsFrom(spans[1..], next, deviceSize),
                    cursor, next, deviceSize);
      hide Ordered;
    }
  }

  // The gaps hold exactly the bytes past the cursor that no range claims.
  lemma {:induction false} GapsAreComplement(spans: seq<Span>, cursor: nat, deviceSize: nat, at: int)
    requires Fused(spans) && cursor <= deviceSize
    ensures SomeRegionHas(GapsFrom(spans, cursor, deviceSize), at)
            <==> cursor <= at < deviceSize && !Covers(spans, at)
  {
    var first := GapUpTo(cursor, if spans == [] then deviceSize else Min(spans[0].start, deviceSize));
    if spans == [] {
      assert first != [] ==> (SomeRegionHas(first, at) <==> RegionHas(first[0], at));
    } else {
      var next := Max(cursor, Min(spans[0].finish, deviceSize));
      GapsAreComplement(spans[1..], next, deviceSize, at);
      SomeRegionConcat(first, GapsFrom(spans[1..], next, deviceSize), at);
      assert first != [] ==> (SomeRegionHas(first, at) <==> RegionHas(first[0], at));
      CoversCons(spans, at);
    }
  }

  // A gap ends with the device, or where some range claims the next byte.
  lemma {:induction false} GapsEndAtClaims(spans: seq<Span>, cursor: nat, deviceSize: nat, i: nat)
    requires Fused(spans) && cursor <= deviceSize && deviceSize < U64_LIMIT && i < |GapsFrom(spans, cursor, deviceSize)|
    ensures var end := End(GapsFrom(spans, cursor, deviceSize)[i]);
            end == deviceSize || Covers(spans, end)
  {
    if spans == [] {
    } else {
      var first := GapUpTo(cursor, Min(spans[0].start, deviceSize));
      var next := Max(cursor, Min(spans[0].finish, deviceSize));
      if i < |first| {
        assert spans[0].start < deviceSize ==> SpanHas(spans[0], spans[0].start);
      } else {
        GapsEndAtClaims(spans[1..], next, deviceSize, i - |first|);
        CoversCons(spans, End(GapsFrom(spans, cursor, deviceSize)[i]));
      }
    }
  }

  // The gaps are the complement: ordered, disjoint, never empty, and holding
  // exactly the device bytes nothing claims.
  lemma GapsAreExact(spans: seq<Span>, deviceSize: nat)
    requires Fused(spans)
    ensures Ordered(GapsFrom(spans, 0, deviceSize))
    ensures forall at :: SomeRegionHas(GapsFrom(spans, 0, deviceSize), at)
                         <==> 0 <= at < deviceSize && !Covers(spans, at)
  {
    hide Ordered, Covers, SomeRegionHas, GapsFrom;
    GapsAreOrdered(spans, 0, deviceSize);
    forall at
      ensures SomeRegionHas(GapsFrom(spans, 0, deviceSize), at) <==> 0 <= at < deviceSize && !Covers(spans, at)
    {
      GapsAreComplement(spans, 0, deviceSize, at);
    }
  }

  lemma ComplementByteForByte(gaps: seq<ScanRegion>, spans: seq<Span>, deviceSize: nat)
    requires forall at :: SomeRegionHas(gaps, at) <==> 0 <= at < deviceSize && !Covers(spans, at)
    ensures forall at :: 0 <= at < deviceSize && !Covers(spans, at) <==>
              exists i :: 0 <= i < |gaps| && gaps[i].offset <= at < gaps[i].offset + gaps[i].lengthBytes
  {
    hide SomeRegionHas, Covers;
    forall at
      ensures 0 <= at < deviceSize && !Covers(spans, at) <==>
              exists i :: 0 <= i < |gaps| && gaps[i].offset <= at < gaps[i].offset + gaps[i].lengthBytes
    {
      RegionBytes(gaps, at);
    }
  }

  // ---- How many bytes are claimed ----

  function ClaimedBytes(spans: seq<Span>): int {
    if spans == [] then 0
    else spans[0].finish - spans[0].start + ClaimedBytes(spans[1..])
  }

  ghost function ByteSet(spans: seq<Span>): set<int> {
    set at | 0 <= at < U64_MAX && Covers(spans, at)
  }

  lemma {:induction false} IntervalSize(bytes: set<int>, from: int, upTo: int)
    requires from <= upTo && forall at :: at in bytes <==> from <= at < upTo
    ensures |bytes| == upTo - from
    decreases upTo - from
  {
    if from < upTo {
      IntervalSize(bytes - {from}, from + 1, upTo);
    } else {
      assert bytes == {};
    }
  }

  // The sum of the ranges is the size of whatever set holds the claimed bytes.
  lemma {:induction false} ClaimedBytesIsSize(spans: seq<Span>, bytes: set<int>)
    requires Fused(spans) && forall at :: at in bytes <==> Covers(spans, at)
    ensures ClaimedBytes(spans) == |bytes|
  {
    if spans == [] {
      assert bytes == {};
    } else {
      forall at
        ensures Covers(spans, at) <==> SpanHas(spans[0], at) || Covers(spans[1..], at)
      {
        CoversCons(spans, at);
      }
      var first := set at | at in bytes && SpanHas(spans[0], at);
      IntervalSize(first, spans[0].start, spans[0].finish);
      ClaimedBytesIsSize(spans[1..], bytes - first);
    }
  }

  lemma ClaimedBytesIsCardinality(spans: seq<Span>)
    requires Fused(spans)
    ensures ClaimedBytes(spans) == |ByteSet(spans)|
  {
    ClaimedBytesIsSize(spans, ByteSet(spans));
  }

  lemma {:induction false} ClaimedBytesFit(spans: seq<Span>)
    requires Fused(spans)
    ensures 0 <= ClaimedBytes(spans)
    ensures spans != [] ==> ClaimedBytes(spans) <= U64_MAX - spans[0].start
  {
    if spans == [] {
    } else {
      ClaimedBytesFit(spans[1..]);
    }
  }

  ghost predicate Intersects(spans: seq<Span>, extent: Extent) {
    exists at :: Covers(spans, at) && ExtentHas(extent, at)
  }

  // An extent that starts at or past the end of another shares no byte with it.
  lemma AdjacentAreApart(a: Extent, b: Extent)
    requires a.deviceOffset + a.lengthBytes <= b.deviceOffset
    ensures forall at :: !(ExtentHas(a, at) && ExtentHas(b, at))
    ensures !Intersects(Claim([], a), b) && !Intersects(Claim([], b), a)
  {
    ClaimIsUnion([], a);
    ClaimIsUnion([], b);
  }

  // ---- The set itself ----

  class RegionSet {
    var regions: seq<Span>

    ghost predicate Valid() reads this { Fused(regions) }

    constructor ()
      ensures Valid() && regions == []
    {
      regions := [];
    }

    // `map::upper_bound`: the first entry that starts past `start`.
    method UpperBound(start: u64) returns (at: nat)
      requires Valid()
      ensures at <= |regions|
      ensures forall i :: 0 <= i < at ==> regions[i].start <= start
      ensures forall i :: at <= i < |regions| ==> start < regions[i].start
    {
      at := 0;
      while at < |regions| && regions[at].start <= start
        invariant 0 <= at <= |regions|
        invariant forall i :: 0 <= i < at ==> regions[i].start <= start
      {
        at := at + 1;
      }
    }

    method FirstTouching(start: u64) returns (at: nat)
      requires Valid()
      ensures at <= |regions|
      ensures forall i :: 0 <= i < at ==> regions[i].finish < start
      ensures forall i :: at <= i < |regions| ==> start <= regions[i].finish
    {
      at := UpperBound(start);
      if at != 0 && regions[at - 1].finish >= start {
        at := at - 1;
      }
    }

    method Add(extent: Extent)
      requires Valid()
      modifies this
      ensures Valid()
      ensures regions == Claim(old(regions), extent)
      ensures forall at :: Covers(regions, at) <==>
                old(Covers(regions, at))
                || (extent.deviceOffset <= at < extent.deviceOffset + extent.lengthBytes && at < U64_MAX)
    {
      ClaimAddsTheBytes(regions, extent);
      hide Insert, Erased, Covers, Fused, EndOf, Fuse, Claim;
      ClaimIs(regions, extent);
      if extent.lengthBytes == 0 {
        return;
      }
      var span := Span(extent.deviceOffset, EndOf(extent));
      ghost var goal := Insert(regions, span);
      var at := FirstTouching(span.start);
      InsertSkips(regions, at, span);
      while at < |regions| && regions[at].start <= span.finish
        invariant at <= |regions|
        invariant forall i :: at <= i < |regions| ==> span.start <= regions[i].finish
        invariant goal == regions[..at] + Insert(regions[at..], span)
        decreases |regions|
      {
        FuseStep(regions, at, span);
        span := Fuse(regions[at], span);
        regions := Erased(regions, at);
      }
      NothingTouches(regions, at, span);
      regions := regions[..at] + [span] + regions[at..];
      assert regions == goal;
    }

    method Overlaps(extent: Extent) returns (hit: bool)
      requires Valid()
      ensures hit <==> Intersects(regions, extent)
      ensures hit <==> exists at :: Covers(regions, at) && at < U64_MAX
                                    && extent.deviceOffset <= at < extent.deviceOffset + extent.lengthBytes
    {
      if extent.lengthBytes == 0 {
        return false;
      }
      var after := UpperBound(extent.deviceOffset);
      if after != 0 && regions[after - 1].finish > extent.deviceOffset {
        EndBoundsTheBytes(extent, extent.deviceOffset);
        assert SpanHas(regions[after - 1], extent.deviceOffset) && ExtentHas(extent, extent.deviceOffset);
        return true;
      }
      hit := after != |regions| && regions[after].start < EndOf(extent);
      if hit {
        EndBoundsTheBytes(extent, regions[after].start);
        assert SpanHas(regions[after], regions[after].start) && ExtentHas(extent, regions[after].start);
      } else {
        forall at | Covers(regions, at)
          ensures !ExtentHas(extent, at)
        {
          EndBoundsTheBytes(extent, at);
          var i :| 0 <= i < |regions| && SpanHas(regions[i], at);
          assert i < after ==> regions[i].finish <= regions[after - 1].finish;
        }
      }
    }

    method Gaps(deviceSize: u64) returns (gaps: seq<ScanRegion>)
      requires Valid()
      ensures gaps == GapsFrom(regions, 0, deviceSize)
      ensures Ordered(gaps)
      ensures forall at :: SomeRegionHas(gaps, at) <==> 0 <= at < deviceSize && !Covers(regions, at)
      ensures forall at :: 0 <= at < deviceSize && !Covers(regions, at) <==>
                exists i :: 0 <= i < |gaps| && gaps[i].offset <= at < gaps[i].offset + gaps[i].lengthBytes
    {
      GapsAreExact(regions, deviceSize);
      gaps := [];
      hide Covers, Fused, Ordered, SomeRegionHas;
      var cursor: nat := 0;
      for i := 0 to |regions|
        invariant cursor <= deviceSize
        invariant GapsFrom(regions, 0, deviceSize) == gaps + GapsFrom(regions[i..], cursor, deviceSize)
      {
        var upTo := Min(regions[i].start, deviceSize);
        assert regions[i..][1..] == regions[i + 1..];
        gaps := gaps + GapUpTo(cursor, upTo);
        cursor := Max(cursor, Min(regions[i].finish, deviceSize));
      }
      gaps := gaps + GapUpTo(cursor, deviceSize);
      ComplementByteForByte(gaps, regions, deviceSize);
    }

    method ClaimedByteCount() returns (sum: u64)
      requires Valid()
      ensures sum == |ByteSet(regions)|
    {
      ClaimedBytesIsCardinality(regions);
      ClaimedBytesFit(regions);
      sum := 0;
      for i := 0 to |regions|
        invariant sum + ClaimedBytes(regions[i..]) == ClaimedBytes(regions)
      {
        assert regions[i..][1..] == regions[i + 1..];
        ClaimedBytesFit(regions[i + 1..]);
        sum := sum + (regions[i].finish - regions[i].start);
      }
    }
  }

  // The map without its range at `at`.
  function Erased(spans: seq<Span>, at: nat): (rest: seq<Span>)
    requires at < |spans|
    ensures |rest| == |spans| - 1 && rest[..at] == spans[..at] && rest[at..] == spans[at + 1..]
    ensures forall i :: at <= i < |rest| ==> rest[i] == spans[i + 1]
  {
    spans[..at] + spans[at + 1..]
  }

  lemma FuseStep(spans: seq<Span>, at: nat, claimed: Span)
    requires at < |spans| && spans[at].start <= claimed.finish && claimed.start <= spans[at].finish
    ensures Insert(spans[at..], claimed) == Insert(spans[at + 1..], Fuse(spans[at], claimed))
    ensures Fuse(spans[at], claimed).start <= claimed.start
  {
    assert spans[at..][1..] == spans[at + 1..];
  }

  lemma NothingTouches(spans: seq<Span>, at: nat, claimed: Span)
    requires at <= |spans|
    requires at < |spans| ==> claimed.finish < spans[at].start && claimed.start <= spans[at].finish
    ensures Insert(spans[at..], claimed) == [claimed] + spans[at..]
  {
  }

  // Ranges that end before the claimed one starts are passed over.
  lemma {:induction false} InsertSkips(spans: seq<Span>, at: nat, claimed: Span)
    requires at <= |spans|
    requires forall i :: 0 <= i < at ==> spans[i].finish < claimed.start
    ensures Insert(spans, claimed) == spans[..at] + Insert(spans[at..], claimed)
  {
    if at == 0 {
    } else {
      InsertSkips(spans[1..], at - 1, claimed);
      assert spans[1..][at - 1..] == spans[at..];
      assert spans[..at] == [spans[0]] + spans[1..][..at - 1];
    }
  }
}
