// From a byte range inside an extent-mapped file to the device offset holding it.
module ExtentLocation {
  import opened Bytes
  import opened Outcomes
  import opened Regions
  import opened ExtentSpans

  datatype FileRange = FileRange(offset: u64, length: u64)

  function WithinExtent(extent: Extent, inner: FileRange): Result<u64>
    requires inner.offset <= extent.lengthBytes
  {
    if inner.length > extent.lengthBytes - inner.offset then Err(InvalidArgument, inner.offset)
    else if inner.offset > U64_MAX - extent.deviceOffset then Err(Overflow, extent.deviceOffset)
    else Ok(extent.deviceOffset + inner.offset)
  }

  function FoundFrom(extents: seq<Extent>, i: nat, range: FileRange): Result<u64>
    requires i <= |extents| && TotalBytes(extents[..i]) <= range.offset
    decreases |extents| - i
  {
    if i == |extents| then Err(OutOfRange, range.offset)
    else
      var inside: u64 := range.offset - TotalBytes(extents[..i]);
      PrefixTotal(extents, i);
      if inside < extents[i].lengthBytes then WithinExtent(extents[i], FileRange(inside, range.length))
      else FoundFrom(extents, i + 1, range)
  }

  function Located(extents: seq<Extent>, range: FileRange): Result<u64> {
    if range.length > U64_MAX - range.offset then Err(Overflow, range.offset)
    else
      assert extents[..0] == [];
      FoundFrom(extents, 0, range)
  }

  method FindExtent(extents: seq<Extent>, range: FileRange) returns (at: Result<u64>)
    ensures TotalBytes(extents[..0]) == 0 && at == FoundFrom(extents, 0, range)
  {
    assert extents[..0] == [];
    var consumed: u64 := 0;
    for i := 0 to |extents|
      invariant consumed == TotalBytes(extents[..i]) <= range.offset
      invariant FoundFrom(extents, i, range) == FoundFrom(extents, 0, range)
    {
      PrefixTotal(extents, i);
      if range.offset - consumed < extents[i].lengthBytes {
        return WithinExtent(extents[i], FileRange(range.offset - consumed, range.length));
      }
      consumed := consumed + extents[i].lengthBytes;
    }
    at := Err(OutOfRange, range.offset);
  }

  method LocateInExtents(extents: seq<Extent>, range: FileRange) returns (at: Result<u64>)
    ensures at == Located(extents, range)
  {
    if range.length > U64_MAX - range.offset {
      return Err(Overflow, range.offset);
    }
    at := FindExtent(extents, range);
  }

  // ---- What it finds ----

  lemma PrefixTotal(extents: seq<Extent>, i: nat)
    requires i < |extents|
    ensures TotalBytes(extents[..i + 1]) == TotalBytes(extents[..i]) + extents[i].lengthBytes
  {
    assert extents[..i + 1][..i] == extents[..i];
  }

  lemma {:induction false} PrefixTotals(extents: seq<Extent>, i: nat, j: nat)
    requires i <= j <= |extents|
    ensures TotalBytes(extents[..i]) <= TotalBytes(extents[..j])
    decreases j
  {
    if i < j {
      PrefixTotals(extents, i, j - 1);
      PrefixTotal(extents, j - 1);
    }
  }

  lemma WholeTotal(extents: seq<Extent>)
    ensures TotalBytes(extents[..|extents|]) == TotalBytes(extents)
  {
    assert extents[..|extents|] == extents;
  }

  // The extent that holds the file's byte `offset`.
  predicate Holds(extents: seq<Extent>, i: nat, offset: nat) {
    i < |extents| && TotalBytes(extents[..i]) <= offset < TotalBytes(extents[..i + 1])
  }

  // `range` lies in extent `i`, whose byte at `offset` is at device offset `at`.
  predicate InExtent(extents: seq<Extent>, i: nat, range: FileRange, at: nat) {
    && Holds(extents, i, range.offset)
    && range.offset + range.length <= TotalBytes(extents[..i + 1])
    && at == extents[i].deviceOffset + (range.offset - TotalBytes(extents[..i]))
  }

  // What is said of a range whose first byte extent `i` holds: an address when
  // the extent holds it all, a refusal when the range runs over the extent's end
  // or the address over the widest offset.
  function AnswerIn(extents: seq<Extent>, i: nat, range: FileRange): Result<u64>
    requires Holds(extents, i, range.offset)
  {
    PrefixTotal(extents, i);
    var inside := range.offset - TotalBytes(extents[..i]);
    if range.offset + range.length > TotalBytes(extents[..i + 1]) then Err(InvalidArgument, inside)
    else if extents[i].deviceOffset + inside >= 0x1_0000_0000_0000_0000 then Err(Overflow, extents[i].deviceOffset)
    else Ok(extents[i].deviceOffset + inside)
  }

  lemma {:induction false} FoundInHolder(extents: seq<Extent>, from: nat, i: nat, range: FileRange)
    requires Holds(extents, i, range.offset)
    requires from <= i && TotalBytes(extents[..from]) <= range.offset
    ensures FoundFrom(extents, from, range) == AnswerIn(extents, i, range)
    decreases i - from
  {
    PrefixTotal(extents, i);
    PrefixTotal(extents, from);
    if from < i {
      PrefixTotals(extents, from + 1, i);
      FoundInHolder(extents, from + 1, i, range);
    }
  }

  lemma {:induction false} HolderExists(extents: seq<Extent>, offset: nat) returns (i: nat)
    requires offset < TotalBytes(extents)
    ensures Holds(extents, i, offset)
  {
    i := 0;
    assert extents[..0] == [];
    WholeTotal(extents);
    while i < |extents| && TotalBytes(extents[..i + 1]) <= offset
      invariant i <= |extents| && TotalBytes(extents[..i]) <= offset
    {
      i := i + 1;
    }
  }

  lemma {:induction false} NothingHolds(extents: seq<Extent>, from: nat, range: FileRange)
    requires from <= |extents| && TotalBytes(extents) <= range.offset && TotalBytes(extents[..from]) <= range.offset
    ensures FoundFrom(extents, from, range) == Err(OutOfRange, range.offset)
    decreases |extents| - from
  {
    if from < |extents| {
      PrefixTotal(extents, from);
      PrefixTotals(extents, from + 1, |extents|);
      WholeTotal(extents);
      NothingHolds(extents, from + 1, range);
    }
  }

  lemma HeldIsAnswered(extents: seq<Extent>, i: nat, range: FileRange)
    requires Holds(extents, i, range.offset) && range.offset + range.length < U64_LIMIT
    ensures Located(extents, range) == AnswerIn(extents, i, range)
  {
    assert extents[..0] == [];
    FoundInHolder(extents, 0, i, range);
  }

  // The refusals before any extent answers: a range past 64 bits, and one that
  // starts past the file's end.
  lemma LocateRefusals(extents: seq<Extent>, range: FileRange)
    ensures range.offset + range.length >= U64_LIMIT ==> Located(extents, range) == Err(Overflow, range.offset)
    ensures range.offset + range.length < U64_LIMIT && range.offset >= TotalBytes(extents) ==>
              Located(extents, range) == Err(OutOfRange, range.offset)
  {
    hide FoundFrom;
    assert extents[..0] == [];
    if range.offset >= TotalBytes(extents) {
      NothingHolds(extents, 0, range);
    }
  }

  // An address comes back exactly when one extent holds the whole range.
  lemma LocatedInOneExtent(extents: seq<Extent>, range: FileRange, at: u64)
    ensures Located(extents, range) == Ok(at)
            <==> range.offset + range.length < U64_LIMIT && exists i: nat :: InExtent(extents, i, range, at)
  {
    hide Located, TotalBytes;
    LocateRefusals(extents, range);
    if range.offset + range.length >= U64_LIMIT {
    } else if i: nat :| InExtent(extents, i, range, at) {
      HeldIsAnswered(extents, i, range);
    } else if Located(extents, range).Ok? {
      var i := HolderExists(extents, range.offset);
      HeldIsAnswered(extents, i, range);
      assert !InExtent(extents, i, range, at);
    }
  }

  // ---- In terms of the addresses a layout stands for ----

  lemma {:induction false} AddressInExtent(extents: seq<Extent>, i: nat, k: nat)
    requires i < |extents| && k < extents[i].lengthBytes
    ensures var at := TotalBytes(extents[..i]) + k;
            at < |Addresses(extents)| && Addresses(extents)[at] == extents[i].deviceOffset + k
    decreases |extents|
  {
    var last := |extents| - 1;
    LastExtent(extents);
    AddressCount(extents[..last]);
    if i < last {
      assert extents[..last][..i] == extents[..i];
      AddressInExtent(extents[..last], i, k);
    }
  }

  // The file's bytes of `range` lie one after another from device offset `at`.
  ghost predicate ContiguousAt(addresses: seq<nat>, range: FileRange, at: nat) {
    && range.offset < |addresses| && range.offset + range.length <= |addresses|
    && addresses[range.offset] == at
    && forall k :: range.offset <= k < range.offset + range.length ==> addresses[k] == at + (k - range.offset)
  }

  lemma InExtentIsContiguous(extents: seq<Extent>, i: nat, range: FileRange, at: nat)
    requires InExtent(extents, i, range, at)
    ensures ContiguousAt(Addresses(extents), range, at)
  {
    var start := TotalBytes(extents[..i]);
    PrefixTotal(extents, i);
    PrefixTotals(extents, i + 1, |extents|);
    WholeTotal(extents);
    AddressCount(extents);
    AddressInExtent(extents, i, range.offset - start);
    forall k | range.offset <= k < range.offset + range.length
      ensures Addresses(extents)[k] == at + (k - range.offset)
    {
      AddressInExtent(extents, i, k - start);
    }
  }

  lemma ContiguousIsInExtent(extents: seq<Extent>, range: FileRange, at: nat) returns (i: nat)
    requires Coalesced(extents) && ContiguousAt(Addresses(extents), range, at)
    ensures InExtent(extents, i, range, at)
  {
    AddressCount(extents);
    i := HolderExists(extents, range.offset);
    var start, end := TotalBytes(extents[..i]), TotalBytes(extents[..i + 1]);
    PrefixTotal(extents, i);
    AddressInExtent(extents, i, range.offset - start);
    if range.offset + range.length > end {
      WholeTotal(extents);
      AddressInExtent(extents, i + 1, 0);
    }
  }

  // Over a coalesced layout, an address comes back exactly when the whole range
  // lies on the device in one piece from there and ends inside 64 bits.
  lemma LocatingIsExact(extents: seq<Extent>, range: FileRange, at: u64)
    requires Coalesced(extents)
    ensures Located(extents, range) == Ok(at)
            <==> range.offset + range.length < U64_LIMIT && ContiguousAt(Addresses(extents), range, at)
  {
    hide Located, InExtent, ContiguousAt, Coalesced;
    LocatedInOneExtent(extents, range, at);
    if i: nat :| InExtent(extents, i, range, at) {
      InExtentIsContiguous(extents, i, range, at);
    }
    if ContiguousAt(Addresses(extents), range, at) {
      var i := ContiguousIsInExtent(extents, range, at);
    }
  }
}
