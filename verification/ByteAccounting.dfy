// The bytes fully trusted entries speak for, up to a cap on how many ranges are
// kept, and the gaps a carve pass has to scan.
module Accounting {
  import opened Bytes
  import opened Regions
  import opened Candidates

  const MAX_ACCOUNTED_REGIONS := 0x1_0000

  datatype Accounted = Accounted(spans: seq<Span>, dropped: nat)

  function AddExtent(acc: Accounted, extent: Extent): Accounted {
    if |acc.spans| >= MAX_ACCOUNTED_REGIONS then acc.(dropped := acc.dropped + 1)
    else acc.(spans := Claim(acc.spans, extent))
  }

  function AddExtents(acc: Accounted, extents: seq<Extent>): Accounted
    decreases |extents|
  {
    if extents == [] then acc else AddExtents(AddExtent(acc, extents[0]), extents[1..])
  }

  // What an entry may speak for: only a fully trusted one accounts for bytes.
  function Spoken(entry: RecoveredEntry): seq<Extent> {
    if entry.recoverability == VALID then entry.extents else []
  }

  function AllSpoken(entries: seq<RecoveredEntry>): seq<Extent> {
    if entries == [] then [] else Spoken(entries[0]) + AllSpoken(entries[1..])
  }

  // A trusted entry names the byte: one of its extents runs over it.
  ghost predicate TrustedNames(entry: RecoveredEntry, at: int) {
    && entry.recoverability == 2
    && exists k :: 0 <= k < |entry.extents|
                   && entry.extents[k].deviceOffset <= at < entry.extents[k].deviceOffset + entry.extents[k].lengthBytes
  }

  // Some trusted entry does, of the bytes below the widest offset.
  ghost predicate Named(entries: seq<RecoveredEntry>, at: int) {
    at < 0xFFFF_FFFF_FFFF_FFFF && exists i :: 0 <= i < |entries| && TrustedNames(entries[i], at)
  }

  lemma SpokenByOne(entry: RecoveredEntry, at: int)
    requires at < U64_MAX
    ensures SomeExtentHas(Spoken(entry), at) <==> TrustedNames(entry, at)
  {
    if k :| 0 <= k < |entry.extents| && entry.recoverability == 2
            && entry.extents[k].deviceOffset <= at < entry.extents[k].deviceOffset + entry.extents[k].lengthBytes {
      assert ExtentHas(entry.extents[k], at);
    }
  }

  lemma SomeExtentConcat(a: seq<Extent>, b: seq<Extent>, at: int)
    ensures SomeExtentHas(a + b, at) <==> SomeExtentHas(a, at) || SomeExtentHas(b, at)
  {
    if i :| 0 <= i < |a| && ExtentHas(a[i], at) {
      assert ExtentHas((a + b)[i], at);
    }
    if i :| 0 <= i < |b| && ExtentHas(b[i], at) {
      assert ExtentHas((a + b)[|a| + i], at);
    }
  }

  // The bytes spoken for are exactly those a trusted entry names.
  lemma {:induction false} SpokenIsNamed(entries: seq<RecoveredEntry>, at: int)
    ensures SomeExtentHas(AllSpoken(entries), at) <==> Named(entries, at)
  {
    if at >= U64_MAX {
    } else if entries == [] {
    } else {
      SpokenIsNamed(entries[1..], at);
      SpokenByOne(entries[0], at);
      SomeExtentConcat(Spoken(entries[0]), AllSpoken(entries[1..]), at);
      hide SomeExtentHas, TrustedNames, Spoken;
      if i :| 0 <= i < |entries[1..]| && TrustedNames(entries[1..][i], at) {
        assert TrustedNames(entries[i + 1], at);
      }
      if i :| 0 <= i < |entries| && TrustedNames(entries[i], at) {
        assert i > 0 ==> TrustedNames(entries[1..][i - 1], at);
      }
    }
  }

  function Account(entries: seq<RecoveredEntry>): Accounted {
    AddExtents(Accounted([], 0), AllSpoken(entries))
  }

  lemma {:induction false} AddExtentsConcat(acc: Accounted, a: seq<Extent>, b: seq<Extent>)
    ensures AddExtents(acc, a + b) == AddExtents(AddExtents(acc, a), b)
    decreases |a|
  {
    if a == [] {
      assert a + b == b;
    } else {
      assert (a + b)[1..] == a[1..] + b;
      AddExtentsConcat(AddExtent(acc, a[0]), a[1..], b);
    }
  }

  lemma {:induction false} AllSpokenConcat(a: seq<RecoveredEntry>, b: seq<RecoveredEntry>)
    ensures AllSpoken(a + b) == AllSpoken(a) + AllSpoken(b)
  {
    if a == [] {
      assert a + b == b;
    } else {
      assert (a + b)[1..] == a[1..] + b;
      AllSpokenConcat(a[1..], b);
    }
  }

  // The cap only ever leaves bytes unaccounted: nothing is claimed that no
  // extent named, and without a drop nothing is missing.
  lemma {:induction false} AddExtentsCoverage(acc: Accounted, extents: seq<Extent>)
    requires Fused(acc.spans)
    ensures Fused(AddExtents(acc, extents).spans)
    ensures acc.dropped <= AddExtents(acc, extents).dropped <= acc.dropped + |extents|
    ensures forall at :: Covers(acc.spans, at) ==> Covers(AddExtents(acc, extents).spans, at)
    ensures forall at :: Covers(AddExtents(acc, extents).spans, at) ==>
              Covers(acc.spans, at) || SomeExtentHas(extents, at)
    ensures AddExtents(acc, extents).dropped == acc.dropped ==>
              forall at :: SomeExtentHas(extents, at) ==> Covers(AddExtents(acc, extents).spans, at)
    decreases |extents|
  {
    if extents == [] {
    } else {
      ClaimIsUnion(acc.spans, extents[0]);
      AddExtentsCoverage(AddExtent(acc, extents[0]), extents[1..]);
      forall at
        ensures SomeExtentHas(extents, at) <==> ExtentHas(extents[0], at) || SomeExtentHas(extents[1..], at)
      {
        SomeExtentCons(extents, at);
      }
    }
  }

  // Once the map is full, every further extent is dropped and counted.
  lemma {:induction false} FullDropsAll(acc: Accounted, extents: seq<Extent>)
    requires |acc.spans| >= MAX_ACCOUNTED_REGIONS
    ensures AddExtents(acc, extents) == Accounted(acc.spans, acc.dropped + |extents|)
    decreases |extents|
  {
    if extents == [] {
    } else {
      FullDropsAll(AddExtent(acc, extents[0]), extents[1..]);
    }
  }

  // Claiming adds at most one range, so few extents are never dropped.
  lemma {:induction false} FewAreKept(acc: Accounted, extents: seq<Extent>)
    requires |acc.spans| + |extents| <= 0x1_0000
    ensures AddExtents(acc, extents).dropped == acc.dropped
    decreases |extents|
  {
    if extents == [] {
    } else {
      InsertAddsOne(acc.spans, Span(extents[0].deviceOffset, EndOf(extents[0])));
      FewAreKept(AddExtent(acc, extents[0]), extents[1..]);
    }
  }

  // The extents before the map first fills up are claimed, all of them; those
  // after it are dropped, and the count is exactly how many they are.
  lemma {:induction false} DropsAreTheRest(acc: Accounted, extents: seq<Extent>) returns (cut: nat)
    ensures cut <= |extents|
    ensures AddExtents(acc, extents) == Accounted(ClaimAll(acc.spans, extents[..cut]), acc.dropped + |extents| - cut)
    ensures forall i :: 0 <= i < cut ==> |ClaimAll(acc.spans, extents[..i])| < 0x1_0000
    ensures cut < |extents| ==> |ClaimAll(acc.spans, extents[..cut])| >= 0x1_0000
    decreases |extents|
  {
    hide Claim;
    if extents == [] {
      cut := 0;
    } else if |acc.spans| >= MAX_ACCOUNTED_REGIONS {
      cut := 0;
      FullDropsAll(acc, extents);
    } else {
      var rest := DropsAreTheRest(AddExtent(acc, extents[0]), extents[1..]);
      cut := rest + 1;
      forall i | 0 <= i < |extents|
        ensures ClaimAll(acc.spans, extents[..i + 1]) == ClaimAll(Claim(acc.spans, extents[0]), extents[1..][..i])
      {
        assert extents[..i + 1][1..] == extents[1..][..i];
      }
      forall i | 0 <= i < cut
        ensures |ClaimAll(acc.spans, extents[..i])| < MAX_ACCOUNTED_REGIONS
      {
        if i > 0 {
          assert ClaimAll(acc.spans, extents[..i - 1 + 1]) == ClaimAll(Claim(acc.spans, extents[0]), extents[1..][..i - 1]);
        }
      }
    }
  }

  // What the gaps of an accounting leave out of a scan.
  function AccountedGaps(entries: seq<RecoveredEntry>, deviceSize: nat): seq<ScanRegion> {
    GapsFrom(Account(entries).spans, 0, deviceSize)
  }

  // Every byte no trusted extent names is in a gap, whatever the cap dropped;
  // and while nothing is dropped, no byte a trusted extent names is.
  lemma GapsAreUnaccounted(entries: seq<RecoveredEntry>, deviceSize: nat)
    ensures Ordered(AccountedGaps(entries, deviceSize))
    ensures forall i :: 0 <= i < |AccountedGaps(entries, deviceSize)| ==>
              End(AccountedGaps(entries, deviceSize)[i]) <= deviceSize
    ensures forall at :: 0 <= at < deviceSize && !Named(entries, at) ==>
              SomeRegionHas(AccountedGaps(entries, deviceSize), at)
    ensures Account(entries).dropped == 0 ==>
              forall at :: SomeRegionHas(AccountedGaps(entries, deviceSize), at) ==> !Named(entries, at)
  {
    forall at
      ensures SomeExtentHas(AllSpoken(entries), at) <==> Named(entries, at)
    {
      SpokenIsNamed(entries, at);
    }
    hide Named;
    AddExtentsCoverage(Accounted([], 0), AllSpoken(entries));
    GapsAreOrdered(Account(entries).spans, 0, deviceSize);
    forall at
      ensures SomeRegionHas(AccountedGaps(entries, deviceSize), at)
              <==> 0 <= at < deviceSize && !Covers(Account(entries).spans, at)
    {
      GapsAreComplement(Account(entries).spans, 0, deviceSize, at);
    }
  }

  // A gap ends with the device, or where a trusted entry names the next byte.
  lemma GapsEndAtTheNamed(entries: seq<RecoveredEntry>, deviceSize: u64, i: nat)
    requires i < |AccountedGaps(entries, deviceSize)|
    ensures var end := End(AccountedGaps(entries, deviceSize)[i]);
            end == deviceSize || Named(entries, end)
  {
    hide Named;
    var end := End(AccountedGaps(entries, deviceSize)[i]);
    AddExtentsCoverage(Accounted([], 0), AllSpoken(entries));
    GapsEndAtClaims(Account(entries).spans, 0, deviceSize, i);
    SpokenIsNamed(entries, end);
  }

  class ByteAccounting {
    const claimed: RegionSet
    var dropped: nat

    ghost predicate Valid() reads this, claimed { claimed.Valid() }

    ghost function State(): Accounted reads this, claimed {
      Accounted(claimed.regions, dropped)
    }

    constructor ()
      ensures Valid() && fresh(claimed)
      ensures State() == Accounted([], 0)
    {
      claimed := new RegionSet();
      dropped := 0;
    }

    method AddRegion(extent: Extent)
      requires Valid()
      modifies this, claimed
      ensures Valid()
      ensures State() == AddExtent(old(State()), extent)
    {
      if |claimed.regions| >= MAX_ACCOUNTED_REGIONS {
        dropped := dropped + 1;
        return;
      }
      claimed.Add(extent);
    }

    method AccountFor(entry: RecoveredEntry)
      requires Valid()
      modifies this, claimed
      ensures Valid()
      ensures State() == AddExtents(old(State()), Spoken(entry))
    {
      if entry.recoverability != VALID {
        return;
      }
      for i := 0 to |entry.extents|
        invariant Valid()
        invariant AddExtents(State(), entry.extents[i..]) == AddExtents(old(State()), entry.extents)
      {
        AddRegion(entry.extents[i]);
        assert entry.extents[i..][1..] == entry.extents[i + 1..];
      }
    }

    method Gaps(deviceSize: u64) returns (gaps: seq<ScanRegion>)
      requires Valid()
      ensures gaps == GapsFrom(State().spans, 0, deviceSize)
    {
      gaps := claimed.Gaps(deviceSize);
    }
  }
}
