// A file's layout as device extents: runs coalesced, totalled, and cut back to
// the size the file declares. An extent list stands for the device addresses of
// the file's bytes, in file order.
module ExtentSpans {
  import opened Bytes
  import opened Outcomes
  import opened Regions

  // The addresses of `count` consecutive bytes.
  function Run(from: nat, count: nat): (addresses: seq<nat>)
    ensures |addresses| == count
  {
    seq(count, i => from + i)
  }

  lemma RunSplits(from: nat, a: nat, b: nat)
    ensures Run(from, a + b) == Run(from, a) + Run(from + a, b)
    ensures Run(from, a + b)[..a] == Run(from, a)
  {
  }

  function Addresses(extents: seq<Extent>): seq<nat> {
    if extents == [] then []
    else Addresses(extents[..|extents| - 1]) + Run(extents[|extents| - 1].deviceOffset, extents[|extents| - 1].lengthBytes)
  }

  function TotalBytes(extents: seq<Extent>): nat {
    if extents == [] then 0
    else TotalBytes(extents[..|extents| - 1]) + extents[|extents| - 1].lengthBytes
  }

  lemma {:induction false} AddressCount(extents: seq<Extent>)
    ensures |Addresses(extents)| == TotalBytes(extents)
  {
    if extents == [] {
    } else {
      AddressCount(extents[..|extents| - 1]);
    }
  }

  lemma LastExtent(extents: seq<Extent>)
    requires extents != []
    ensures var last := extents[|extents| - 1];
            && Addresses(extents) == Addresses(extents[..|extents| - 1]) + Run(last.deviceOffset, last.lengthBytes)
            && TotalBytes(extents) == TotalBytes(extents[..|extents| - 1]) + last.lengthBytes
  {
  }

  lemma OneMore(extents: seq<Extent>, last: Extent)
    ensures Addresses(extents + [last]) == Addresses(extents) + Run(last.deviceOffset, last.lengthBytes)
    ensures TotalBytes(extents + [last]) == TotalBytes(extents) + last.lengthBytes
  {
    assert (extents + [last])[..|extents|] == extents;
  }

  // Every extent ends within the 64-bit address space.
  predicate Addressed(extents: seq<Extent>) {
    forall i :: 0 <= i < |extents| ==> extents[i].deviceOffset + extents[i].lengthBytes < U64_LIMIT
  }

  // A file's layout at its coarsest: no extent is empty, and none starts where
  // the one before it ends.
  predicate Coalesced(extents: seq<Extent>) {
    && (forall i :: 0 <= i < |extents| ==> extents[i].lengthBytes > 0)
    && (forall i :: 0 < i < |extents| ==>
         extents[i - 1].deviceOffset + extents[i - 1].lengthBytes != extents[i].deviceOffset)
  }

  // ---- Appending a run ----

  predicate Continues(extent: Extent, run: Extent) {
    (extent.deviceOffset + extent.lengthBytes) % U64_LIMIT == run.deviceOffset
  }

  function Appended(extents: seq<Extent>, run: Extent): seq<Extent> {
    var last := |extents| - 1;
    if extents != [] && Continues(extents[last], run)
    then extents[last := extents[last].(lengthBytes := (extents[last].lengthBytes + run.lengthBytes) % U64_LIMIT)]
    else extents + [run]
  }

  method AppendExtent(extents: seq<Extent>, run: Extent) returns (grown: seq<Extent>)
    ensures grown == Appended(extents, run)
  {
    var last := |extents| - 1;
    if extents != [] && Continues(extents[last], run) {
      grown := extents[last := extents[last].(lengthBytes := (extents[last].lengthBytes + run.lengthBytes) % U64_LIMIT)];
      return;
    }
    grown := extents + [run];
  }

  lemma AppendedIs(extents: seq<Extent>, run: Extent)
    requires Addressed(extents) && run.deviceOffset + run.lengthBytes < U64_LIMIT
    ensures var last := |extents| - 1;
            if extents != [] && extents[last].deviceOffset + extents[last].lengthBytes == run.deviceOffset
            then Appended(extents, run)
                 == extents[..last] + [Extent(extents[last].deviceOffset, extents[last].lengthBytes + run.lengthBytes)]
            else Appended(extents, run) == extents + [run]
  {
  }

  // Coalescing moves no address.
  lemma AppendingKeepsAddresses(extents: seq<Extent>, run: Extent)
    requires Addressed(extents) && run.deviceOffset + run.lengthBytes < U64_LIMIT
    ensures Addresses(Appended(extents, run)) == Addresses(extents) + Run(run.deviceOffset, run.lengthBytes)
  {
    AppendedIs(extents, run);
    hide Appended, Run, Continues;
    var last := |extents| - 1;
    if extents != [] && extents[last].deviceOffset + extents[last].lengthBytes == run.deviceOffset {
      var before := extents[last];
      LastExtent(extents);
      OneMore(extents[..last], Extent(before.deviceOffset, before.lengthBytes + run.lengthBytes));
      hide Addresses;
      RunSplits(before.deviceOffset, before.lengthBytes, run.lengthBytes);
    } else {
      OneMore(extents, run);
    }
  }

  lemma AppendingKeepsShape(extents: seq<Extent>, run: Extent)
    requires Addressed(extents) && run.deviceOffset + run.lengthBytes < U64_LIMIT
    ensures Addressed(Appended(extents, run))
    ensures Coalesced(extents) && run.lengthBytes > 0 ==> Coalesced(Appended(extents, run))
  {
    AppendedIs(extents, run);
    hide Appended, Continues;
  }

  // ---- The total, as the code keeps it ----

  method ExtentBytes(extents: seq<Extent>) returns (total: u64)
    ensures total == TotalBytes(extents) % U64_LIMIT
  {
    total := 0;
    for i := 0 to |extents|
      invariant total == TotalBytes(extents[..i]) % U64_LIMIT
    {
      assert extents[..i + 1][..i] == extents[..i];
      total := (total + extents[i].lengthBytes) % U64_LIMIT;
    }
    assert extents[..|extents|] == extents;
  }

  // ---- Trimming to a size ----

  // What an extent still adds to the list, and what is still missing after it.
  method TakeExtent(taken: seq<Extent>, extent: Extent, remaining: u64) returns (grown: seq<Extent>, left: u64)
    ensures (grown, left) == Taken(taken, extent, remaining)
  {
    var take := if extent.lengthBytes < remaining then extent.lengthBytes else remaining;
    if take == 0 {
      return taken, 0;
    }
    grown := taken + [Extent(extent.deviceOffset, take)];
    left := remaining - take;
  }

  function Taken(taken: seq<Extent>, extent: Extent, remaining: u64): (seq<Extent>, u64) {
    var take := if extent.lengthBytes < remaining then extent.lengthBytes else remaining;
    if take == 0 then (taken, 0) else (taken + [Extent(extent.deviceOffset, take)], remaining - take)
  }

  function TakenAll(extents: seq<Extent>, sizeBytes: u64): (seq<Extent>, u64) {
    if extents == [] then ([], sizeBytes)
    else
      var before := TakenAll(extents[..|extents| - 1], sizeBytes);
      Taken(before.0, extents[|extents| - 1], before.1)
  }

  function Trimmed(extents: seq<Extent>, sizeBytes: u64): Result<seq<Extent>> {
    var taken := TakenAll(extents, sizeBytes);
    if taken.1 != 0 then Err(InvalidArgument, sizeBytes) else Ok(taken.0)
  }

  method TrimToSize(extents: seq<Extent>, sizeBytes: u64) returns (trimmed: Result<seq<Extent>>)
    ensures trimmed == Trimmed(extents, sizeBytes)
  {
    var taken: seq<Extent>, remaining: u64 := [], sizeBytes;
    for i := 0 to |extents|
      invariant (taken, remaining) == TakenAll(extents[..i], sizeBytes)
    {
      assert extents[..i + 1][..i] == extents[..i];
      taken, remaining := TakeExtent(taken, extents[i], remaining);
    }
    assert extents[..|extents|] == extents;
    if remaining != 0 {
      return Err(InvalidArgument, sizeBytes);
    }
    trimmed := Ok(taken);
  }

  // What trimming is for: the list's first `sizeBytes` addresses, or a refusal
  // when it has fewer.
  ghost predicate CutsToSize(extents: seq<Extent>, sizeBytes: u64, trimmed: Result<seq<Extent>>) {
    if TotalBytes(extents) < sizeBytes then trimmed == Err(InvalidArgument, sizeBytes)
    else trimmed.Ok? && |Addresses(extents)| >= sizeBytes && Addresses(trimmed.value) == Addresses(extents)[..sizeBytes]
  }

  // No empty extent comes before the size is reached.
  predicate NoneEmptyBefore(extents: seq<Extent>, sizeBytes: u64) {
    forall i :: 0 <= i < |extents| && extents[i].lengthBytes == 0 ==> TotalBytes(extents[..i]) >= sizeBytes
  }

  lemma {:induction false} TotalOfPrefix(extents: seq<Extent>, i: nat)
    requires i <= |extents|
    ensures TotalBytes(extents[..i]) <= TotalBytes(extents)
    decreases |extents|
  {
    if i < |extents| {
      assert extents[..|extents| - 1][..i] == extents[..i];
      TotalOfPrefix(extents[..|extents| - 1], i);
    } else {
      assert extents[..i] == extents;
    }
  }

  lemma NoneEmptyInFront(extents: seq<Extent>, sizeBytes: u64)
    requires extents != [] && NoneEmptyBefore(extents, sizeBytes)
    ensures NoneEmptyBefore(extents[..|extents| - 1], sizeBytes)
    ensures extents[|extents| - 1].lengthBytes == 0 ==> TotalBytes(extents[..|extents| - 1]) >= sizeBytes
  {
    var front := extents[..|extents| - 1];
    forall i | 0 <= i < |front| && front[i].lengthBytes == 0
      ensures TotalBytes(front[..i]) >= sizeBytes
    {
      assert front[..i] == extents[..i];
    }
  }

  // The front of a list one extent longer.
  lemma FrontGrows(front: seq<nat>, from: nat, length: nat, size: nat)
    ensures size <= |front| ==> (front + Run(from, length))[..size] == front[..size]
    ensures |front| <= size <= |front| + length ==>
              (front + Run(from, length))[..size] == front + Run(from, size - |front|)
    ensures front[..|front|] == front
  {
    if |front| <= size <= |front| + length {
      RunSplits(from, size - |front|, length - (size - |front|));
      hide Run;
    }
  }

  // One more extent taken is that much more of the front.
  lemma OneMoreTaken(front: seq<nat>, before: seq<Extent>, last: Extent, remaining: u64, sizeBytes: u64)
    requires remaining == (if |front| < sizeBytes then sizeBytes - |front| else 0)
    requires Addresses(before) == front[..sizeBytes - remaining]
    requires last.lengthBytes == 0 ==> remaining == 0
    ensures var (taken, left) := Taken(before, last, remaining);
            && left == (if |front| + last.lengthBytes < sizeBytes then sizeBytes - |front| - last.lengthBytes else 0)
            && sizeBytes - left <= |front| + last.lengthBytes
            && Addresses(taken) == (front + Run(last.deviceOffset, last.lengthBytes))[..sizeBytes - left]
  {
    hide Run, Addresses;
    var take: u64 := if last.lengthBytes < remaining then last.lengthBytes else remaining;
    OneMore(before, Extent(last.deviceOffset, take));
    FrontGrows(front, last.deviceOffset, last.lengthBytes, sizeBytes - remaining + take);
  }

  // As long as no empty extent is met, the list taken is the front of the layout.
  lemma {:induction false} TakenIsTheFront(extents: seq<Extent>, sizeBytes: u64)
    requires NoneEmptyBefore(extents, sizeBytes)
    ensures var (taken, left) := TakenAll(extents, sizeBytes);
            && left == (if TotalBytes(extents) < sizeBytes then sizeBytes - TotalBytes(extents) else 0)
            && |Addresses(extents)| >= sizeBytes - left
            && Addresses(taken) == Addresses(extents)[..sizeBytes - left]
    decreases |extents|
  {
    hide Run;
    AddressCount(extents);
    if extents == [] {
    } else {
      var front, last := extents[..|extents| - 1], extents[|extents| - 1];
      NoneEmptyInFront(extents, sizeBytes);
      TakenIsTheFront(front, sizeBytes);
      AddressCount(front);
      var (before, remaining) := TakenAll(front, sizeBytes);
      assert TakenAll(extents, sizeBytes) == Taken(before, last, remaining);
      LastExtent(extents);
      hide Addresses, TotalBytes, NoneEmptyBefore, TakenAll;
      OneMoreTaken(Addresses(front), before, last, remaining, sizeBytes);
    }
  }

  // Once nothing is missing, nothing more is taken.
  lemma {:induction false} NothingMoreTaken(extents: seq<Extent>, i: nat, sizeBytes: u64)
    requires i <= |extents| && TakenAll(extents[..i], sizeBytes).1 == 0
    ensures TakenAll(extents, sizeBytes) == TakenAll(extents[..i], sizeBytes)
    decreases |extents|
  {
    if i < |extents| {
      assert extents[..|extents| - 1][..i] == extents[..i];
      NothingMoreTaken(extents[..|extents| - 1], i, sizeBytes);
    } else {
      assert extents[..i] == extents;
    }
  }

  lemma {:induction false} FirstEmpty(extents: seq<Extent>, sizeBytes: u64) returns (i: nat)
    requires !NoneEmptyBefore(extents, sizeBytes)
    ensures i < |extents| && extents[i].lengthBytes == 0 && TotalBytes(extents[..i]) < sizeBytes
    ensures NoneEmptyBefore(extents[..i], sizeBytes)
    decreases |extents|
  {
    var last := |extents| - 1;
    if NoneEmptyBefore(extents[..last], sizeBytes) {
      forall k | 0 <= k < last && extents[k].lengthBytes == 0
        ensures TotalBytes(extents[..k]) >= sizeBytes
      {
        assert extents[..last][..k] == extents[..k];
        assert extents[..last][k] == extents[k];
      }
      i := last;
    } else {
      i := FirstEmpty(extents[..last], sizeBytes);
      assert extents[..last][..i] == extents[..i];
    }
  }

  // An empty extent met too early ends the list there and is reported as success.
  lemma EmptyExtentCutsShort(extents: seq<Extent>, sizeBytes: u64)
    requires !NoneEmptyBefore(extents, sizeBytes)
    ensures Trimmed(extents, sizeBytes).Ok?
    ensures TotalBytes(Trimmed(extents, sizeBytes).value) < sizeBytes
  {
    var i := FirstEmpty(extents, sizeBytes);
    TakenIsTheFront(extents[..i], sizeBytes);
    var upTo := extents[..i + 1];
    assert upTo[..i] == extents[..i];
    assert TakenAll(upTo, sizeBytes) == (TakenAll(extents[..i], sizeBytes).0, 0);
    NothingMoreTaken(extents, i + 1, sizeBytes);
    AddressCount(Trimmed(extents, sizeBytes).value);
    AddressCount(extents[..i]);
  }

  // Trimming does what it is for exactly when no empty extent is met before the
  // size is reached.
  lemma TrimmingIsExact(extents: seq<Extent>, sizeBytes: u64)
    ensures CutsToSize(extents, sizeBytes, Trimmed(extents, sizeBytes)) <==> NoneEmptyBefore(extents, sizeBytes)
  {
    hide TakenAll, NoneEmptyBefore;
    AddressCount(extents);
    if NoneEmptyBefore(extents, sizeBytes) {
      TakenIsTheFront(extents, sizeBytes);
    } else {
      EmptyExtentCutsShort(extents, sizeBytes);
      AddressCount(Trimmed(extents, sizeBytes).value);
    }
  }

  // The short list it hands back otherwise: nothing at all, as a success, for
  // a one-byte file whose first extent is empty.
  lemma EmptyExtentIsTakenForTheEnd()
    ensures Trimmed([Extent(7, 0), Extent(9, 1)], 1) == Ok([])
    ensures !CutsToSize([Extent(7, 0), Extent(9, 1)], 1, Ok([]))
  {
    var extents := [Extent(7, 0), Extent(9, 1)];
    assert extents[..1] == [Extent(7, 0)];
    assert extents[..1][..0] == [];
    assert TakenAll(extents[..1], 1) == ([], 0);
    AddressCount(extents);
  }

  // A trimmed list is the list's own extents, the last of them perhaps shortened.
  lemma {:induction false} TakenAreTheExtents(extents: seq<Extent>, sizeBytes: u64)
    requires forall i :: 0 <= i < |extents| ==> extents[i].lengthBytes > 0
    ensures var (taken, left) := TakenAll(extents, sizeBytes);
            && |taken| <= |extents|
            && (forall i :: 0 <= i < |taken| - 1 ==> taken[i] == extents[i])
            && (taken != [] ==> var last := |taken| - 1;
                                && taken[last].deviceOffset == extents[last].deviceOffset
                                && 0 < taken[last].lengthBytes <= extents[last].lengthBytes)
            && (left > 0 ==> taken == extents)
    decreases |extents|
  {
    if extents == [] {
    } else {
      var front := extents[..|extents| - 1];
      TakenAreTheExtents(front, sizeBytes);
      assert extents == front + [extents[|extents| - 1]];
    }
  }

  lemma TrimmingKeepsShape(extents: seq<Extent>, sizeBytes: u64)
    requires Coalesced(extents) && Addressed(extents) && Trimmed(extents, sizeBytes).Ok?
    ensures Coalesced(Trimmed(extents, sizeBytes).value) && Addressed(Trimmed(extents, sizeBytes).value)
  {
    hide TakenAll;
    TakenAreTheExtents(extents, sizeBytes);
  }
}
