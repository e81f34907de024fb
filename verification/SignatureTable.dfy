// Every registered signature grouped by its first byte, and the nibble filter
// derived from the same entries.
module Signatures {
  import opened Bytes

  // `offset` is where the magic sits inside the file.
  datatype Signature = Signature(magic: seq<byte>, offset: nat)

  type Carver = seq<Signature>

  datatype SignatureEntry = SignatureEntry(magic: seq<byte>, inFileOffset: nat, carverIndex: nat)

  // ---- Every registered signature, in registration order ----

  // A signature with no magic is left out.
  function EntriesOf(signatures: seq<Signature>, carverIndex: nat): seq<SignatureEntry> {
    if signatures == [] then []
    else
      (if signatures[0].magic == [] then []
       else [SignatureEntry(signatures[0].magic, signatures[0].offset, carverIndex)])
      + EntriesOf(signatures[1..], carverIndex)
  }

  function FlattenFrom(carvers: seq<Carver>, carverIndex: nat): seq<SignatureEntry> {
    if carvers == [] then []
    else EntriesOf(carvers[0], carverIndex) + FlattenFrom(carvers[1..], carverIndex + 1)
  }

  function Flatten(carvers: seq<Carver>): seq<SignatureEntry> {
    FlattenFrom(carvers, 0)
  }

  // Which entries there are: one for each signature with a magic, under its
  // carver's index.
  ghost predicate Registered(carvers: seq<Carver>, carverIndex: nat, entry: SignatureEntry) {
    && carverIndex <= entry.carverIndex < carverIndex + |carvers| && entry.magic != []
    && Signature(entry.magic, entry.inFileOffset) in carvers[entry.carverIndex - carverIndex]
  }

  lemma {:induction false} EntriesAreRegistered(signatures: seq<Signature>, carverIndex: nat, entry: SignatureEntry)
    ensures entry in EntriesOf(signatures, carverIndex)
            <==> && entry.carverIndex == carverIndex && entry.magic != []
                 && Signature(entry.magic, entry.inFileOffset) in signatures
  {
    if signatures == [] {
    } else {
      EntriesAreRegistered(signatures[1..], carverIndex, entry);
    }
  }

  lemma {:induction false} FlattenIsRegistered(carvers: seq<Carver>, carverIndex: nat, entry: SignatureEntry)
    ensures entry in FlattenFrom(carvers, carverIndex) <==> Registered(carvers, carverIndex, entry)
  {
    hide EntriesOf;
    if carvers == [] {
    } else {
      FlattenIsRegistered(carvers[1..], carverIndex + 1, entry);
      EntriesAreRegistered(carvers[0], carverIndex, entry);
      if entry.carverIndex > carverIndex && entry.carverIndex < carverIndex + |carvers| {
        assert carvers[1..][entry.carverIndex - carverIndex - 1] == carvers[entry.carverIndex - carverIndex];
      }
    }
  }

  predicate AllMagical(entries: seq<SignatureEntry>) {
    forall i :: 0 <= i < |entries| ==> entries[i].magic != []
  }

  lemma {:induction false} EntriesAreMagical(signatures: seq<Signature>, carverIndex: nat)
    ensures AllMagical(EntriesOf(signatures, carverIndex))
  {
    if signatures == [] {
    } else {
      EntriesAreMagical(signatures[1..], carverIndex);
    }
  }

  lemma {:induction false} FlattenIsMagical(carvers: seq<Carver>, carverIndex: nat)
    ensures AllMagical(FlattenFrom(carvers, carverIndex))
  {
    if carvers == [] {
    } else {
      EntriesAreMagical(carvers[0], carverIndex);
      FlattenIsMagical(carvers[1..], carverIndex + 1);
    }
  }

  // ---- Grouping by first byte ----

  function Key(entry: SignatureEntry): byte
    requires entry.magic != []
  {
    entry.magic[0]
  }

  // The entries whose magic starts with `first`, in the order given.
  function Group(entries: seq<SignatureEntry>, first: int): seq<SignatureEntry>
    requires AllMagical(entries)
  {
    if entries == [] then []
    else (if Key(entries[0]) == first then [entries[0]] else []) + Group(entries[1..], first)
  }

  predicate SortedByKey(entries: seq<SignatureEntry>)
    requires AllMagical(entries)
  {
    forall i, j :: 0 <= i < j < |entries| ==> Key(entries[i]) <= Key(entries[j])
  }

  function InsertByKey(entry: SignatureEntry, sorted: seq<SignatureEntry>): (r: seq<SignatureEntry>)
    requires entry.magic != [] && AllMagical(sorted)
    ensures AllMagical(r) && |r| == |sorted| + 1
  {
    if sorted == [] || Key(entry) <= Key(sorted[0]) then [entry] + sorted
    else [sorted[0]] + InsertByKey(entry, sorted[1..])
  }

  // A stable sort by first byte.
  function StableSort(entries: seq<SignatureEntry>): (r: seq<SignatureEntry>)
    requires AllMagical(entries)
    ensures AllMagical(r) && |r| == |entries|
  {
    if entries == [] then [] else InsertByKey(entries[0], StableSort(entries[1..]))
  }

  lemma {:induction false} InsertKeepsSorted(entry: SignatureEntry, sorted: seq<SignatureEntry>)
    requires entry.magic != [] && AllMagical(sorted) && SortedByKey(sorted)
    ensures SortedByKey(InsertByKey(entry, sorted))
    ensures forall i :: 0 <= i < |InsertByKey(entry, sorted)| ==>
              Key(InsertByKey(entry, sorted)[i]) == Key(entry)
              || (sorted != [] && Key(sorted[0]) <= Key(InsertByKey(entry, sorted)[i]))
  {
    if sorted != [] && Key(entry) > Key(sorted[0]) {
      InsertKeepsSorted(entry, sorted[1..]);
    }
  }

  lemma {:induction false} InsertIntoGroup(entry: SignatureEntry, sorted: seq<SignatureEntry>, first: int)
    requires entry.magic != [] && AllMagical(sorted) && SortedByKey(sorted)
    ensures Group(InsertByKey(entry, sorted), first) == Group([entry] + sorted, first)
  {
    if sorted != [] && Key(entry) > Key(sorted[0]) {
      InsertIntoGroup(entry, sorted[1..], first);
      assert ([entry] + sorted)[1..] == sorted;
      assert ([entry] + sorted[1..])[1..] == sorted[1..];
      assert InsertByKey(entry, sorted)[1..] == InsertByKey(entry, sorted[1..]);
    }
  }

  // Sorting keeps every group, in registration order.
  lemma {:induction false} StableSortKeepsGroups(entries: seq<SignatureEntry>)
    requires AllMagical(entries)
    ensures SortedByKey(StableSort(entries))
    ensures forall first :: Group(StableSort(entries), first) == Group(entries, first)
  {
    if entries == [] {
    } else {
      var rest := StableSort(entries[1..]);
      StableSortKeepsGroups(entries[1..]);
      InsertKeepsSorted(entries[0], rest);
      forall first
        ensures Group(StableSort(entries), first) == Group(entries, first)
      {
        InsertIntoGroup(entries[0], rest, first);
        assert ([entries[0]] + rest)[1..] == rest;
      }
    }
  }

  lemma GroupStep(entries: seq<SignatureEntry>, first: int)
    requires AllMagical(entries) && entries != []
    ensures Group(entries, first) == (if Key(entries[0]) == first then [entries[0]] else []) + Group(entries[1..], first)
  {
  }

  // The first entry of sorted entries leads the lowest group.
  lemma LowestGroup(a: seq<SignatureEntry>, b: seq<SignatureEntry>)
    requires AllMagical(a) && AllMagical(b) && a != [] && SortedByKey(b)
    requires Group(a, Key(a[0])) == Group(b, Key(a[0]))
    ensures b != [] && Key(b[0]) <= Key(a[0])
  {
    GroupStep(a, Key(a[0]));
    hide Group;
    if b == [] || Key(a[0]) < Key(b[0]) {
      GroupOfOthers(b, Key(a[0]));
    }
  }

  lemma {:induction false} GroupsDecideOrder(a: seq<SignatureEntry>, b: seq<SignatureEntry>)
    requires AllMagical(a) && AllMagical(b) && SortedByKey(a) && SortedByKey(b)
    requires forall first :: Group(a, first) == Group(b, first)
    ensures a == b
  {
    hide Group;
    if a == [] {
      if b != [] {
        LowestGroup(b, a);
      }
    } else {
      LowestGroup(a, b);
      LowestGroup(b, a);
      SameHead(a, b);
      forall first
        ensures Group(a[1..], first) == Group(b[1..], first)
      {
        GroupStep(a, first);
        GroupStep(b, first);
        RestIsEqual(if Key(a[0]) == first then [a[0]] else [], Group(a[1..], first), Group(b[1..], first));
      }
      GroupsDecideOrder(a[1..], b[1..]);
      assert a == [a[0]] + a[1..] && b == [b[0]] + b[1..];
    }
  }

  lemma SameHead(a: seq<SignatureEntry>, b: seq<SignatureEntry>)
    requires AllMagical(a) && AllMagical(b) && a != [] && b != [] && Key(a[0]) == Key(b[0])
    requires Group(a, Key(a[0])) == Group(b, Key(a[0]))
    ensures a[0] == b[0]
  {
    GroupStep(a, Key(a[0]));
    GroupStep(b, Key(a[0]));
    hide Group;
    assert a[0] == Group(a, Key(a[0]))[0];
  }

  lemma RestIsEqual(front: seq<SignatureEntry>, a: seq<SignatureEntry>, b: seq<SignatureEntry>)
    requires front + a == front + b
    ensures a == b
  {
    assert a == (front + a)[|front|..] == b;
  }

  // Whatever stable sort by first byte the library uses, this is what it gives.
  lemma AnyStableSortAgrees(entries: seq<SignatureEntry>, sorted: seq<SignatureEntry>)
    requires AllMagical(entries) && AllMagical(sorted) && SortedByKey(sorted)
    requires forall first :: Group(sorted, first) == Group(entries, first)
    ensures sorted == StableSort(entries)
  {
    StableSortKeepsGroups(entries);
    GroupsDecideOrder(sorted, StableSort(entries));
  }

  lemma ConcatIsMagical(a: seq<SignatureEntry>, b: seq<SignatureEntry>)
    requires AllMagical(a) && AllMagical(b)
    ensures AllMagical(a + b)
  {
  }

  lemma {:induction false} GroupConcat(a: seq<SignatureEntry>, b: seq<SignatureEntry>, first: int)
    requires AllMagical(a) && AllMagical(b)
    ensures AllMagical(a + b) && Group(a + b, first) == Group(a, first) + Group(b, first)
  {
    if a == [] {
      assert a + b == b;
    } else {
      GroupConcat(a[1..], b, first);
      GroupStep(a, first);
      ConcatIsMagical(a, b);
      GroupStep(a + b, first);
      hide Group;
      assert (a + b)[0] == a[0] && (a + b)[1..] == a[1..] + b;
    }
  }

  lemma {:induction false} GroupOfOthers(entries: seq<SignatureEntry>, first: int)
    requires AllMagical(entries) && forall i :: 0 <= i < |entries| ==> Key(entries[i]) != first
    ensures Group(entries, first) == []
  {
    if entries == [] {
    } else {
      GroupOfOthers(entries[1..], first);
    }
  }

  lemma {:induction false} GroupOfSame(entries: seq<SignatureEntry>, first: int)
    requires AllMagical(entries) && forall i :: 0 <= i < |entries| ==> Key(entries[i]) == first
    ensures Group(entries, first) == entries
  {
    if entries == [] {
    } else {
      GroupOfSame(entries[1..], first);
    }
  }

  // In sorted entries a group is the contiguous run between where it starts and
  // where the next one does.
  lemma GroupIsRun(entries: seq<SignatureEntry>, first: int, begin: nat, end: nat)
    requires AllMagical(entries) && begin <= end <= |entries|
    requires forall i :: 0 <= i < begin ==> Key(entries[i]) < first
    requires forall i :: begin <= i < end ==> Key(entries[i]) == first
    requires forall i :: end <= i < |entries| ==> first < Key(entries[i])
    ensures Group(entries, first) == entries[begin..end]
  {
    hide Group;
    var before, run, after := entries[..begin], entries[begin..end], entries[end..];
    assert entries == before + (run + after);
    GroupOfOthers(before, first);
    GroupOfSame(run, first);
    GroupOfOthers(after, first);
    GroupConcat(run, after, first);
    GroupConcat(before, run + after, first);
  }

  // ---- The nibble filter ----

  datatype NibbleFilter = NibbleFilter(low: seq<bv8>, high: seq<bv8>)

  predicate FilterShape(f: NibbleFilter) {
    |f.low| == 16 && |f.high| == 16
  }

  // Whether `value` survives: its two nibbles' masks share a bit.
  predicate Passes(f: NibbleFilter, value: byte)
    requires FilterShape(f)
  {
    f.low[value % 16] & f.high[value / 16] != 0
  }

  function NibbleBit(value: byte): bv8 {
    (1 as bv8) << ((value / 16) % 8)
  }

  function AddToFilter(f: NibbleFilter, first: byte): (g: NibbleFilter)
    requires FilterShape(f)
    ensures FilterShape(g)
  {
    NibbleFilter(f.low[first % 16 := f.low[first % 16] | NibbleBit(first)],
                 f.high[first / 16 := f.high[first / 16] | NibbleBit(first)])
  }

  lemma SharedBit(a: bv8, b: bv8, bit: bv8)
    requires bit != 0
    ensures (a | bit) & (b | bit) != 0
  {
    assert ((a | bit) & (b | bit)) & bit == bit;
  }

  lemma WiderMasks(a: bv8, b: bv8, c: bv8, d: bv8)
    requires a & b != 0
    ensures (a | c) & (b | d) != 0
  {
    assert ((a | c) & (b | d)) & (a & b) == a & b;
  }

  lemma NibbleBitIsSet(value: byte)
    ensures NibbleBit(value) != 0
  {
    var shift := (value / 16) % 8;
    assert shift == 0 || shift == 1 || shift == 2 || shift == 3 || shift == 4 || shift == 5 || shift == 6 || shift == 7;
  }

  // Adding a first byte lets that byte through, and drops none let through before.
  lemma AddToFilterPasses(f: NibbleFilter, first: byte, value: byte)
    requires FilterShape(f)
    requires value == first || Passes(f, value)
    ensures Passes(AddToFilter(f, first), value)
  {
    var g := AddToFilter(f, first);
    var bit := NibbleBit(first);
    NibbleBitIsSet(first);
    var low, high := f.low[value % 16], f.high[value / 16];
    if value == first {
      SharedBit(low, high, bit);
    } else {
      WiderMasks(low, high, 0, 0);
      WiderMasks(low, high, bit, 0);
      WiderMasks(low, high, 0, bit);
      WiderMasks(low, high, bit, bit);
    }
  }

  // ---- What passes it ----

  function OneBit(j: nat): bv8
    requires j < 8
  {
    [1, 2, 4, 8, 16, 32, 64, 128][j]
  }

  predicate HasBit(mask: bv8, j: nat)
    requires j < 8
  {
    mask & OneBit(j) != 0
  }

  // Some magic's first byte has this low nibble, and these low three bits of the
  // high one.
  ghost predicate LowStarts(entries: seq<SignatureEntry>, low: nat, bits: nat) {
    exists i :: 0 <= i < |entries| && entries[i].magic != []
                && entries[i].magic[0] % 16 == low && entries[i].magic[0] / 16 % 8 == bits
  }

  // Some magic's first byte has this high nibble.
  ghost predicate HighStarts(entries: seq<SignatureEntry>, high: nat) {
    exists i :: 0 <= i < |entries| && entries[i].magic != [] && entries[i].magic[0] / 16 == high
  }

  ghost predicate FilterOf(f: NibbleFilter, entries: seq<SignatureEntry>) {
    && FilterShape(f)
    && forall n, j :: 0 <= n < 16 && 0 <= j < 8 ==>
         && (HasBit(f.low[n], j) <==> LowStarts(entries, n, j))
         && (HasBit(f.high[n], j) <==> j == n % 8 && HighStarts(entries, n))
  }

  lemma NibbleBitIs(value: byte)
    ensures NibbleBit(value) == OneBit(value / 16 % 8)
  {
    var shift := value / 16 % 8;
    assert shift == 0 || shift == 1 || shift == 2 || shift == 3 || shift == 4 || shift == 5 || shift == 6 || shift == 7;
  }

  lemma NoBits()
    ensures forall j: nat :: j < 8 ==> !HasBit(0, j)
  {
    forall j: nat | j < 8
      ensures !HasBit(0, j)
    {
      assert 0 & OneBit(j) == 0;
    }
  }

  lemma OneMoreBit(mask: bv8, k: nat, j: nat)
    requires k < 8 && j < 8
    ensures HasBit(mask | OneBit(k), j) <==> HasBit(mask, j) || j == k
  {
    BitsAreApart(mask, OneBit(k), OneBit(j));
  }

  lemma BitsAreApart(mask: bv8, a: bv8, b: bv8)
    ensures (mask | a) & b == (mask & b) | (a & b)
    ensures (mask & b) | (a & b) == 0 <==> mask & b == 0 && a & b == 0
  {
  }

  lemma BitOfBoth(a: bv8, b: bv8, j: nat)
    requires j < 8
    ensures a & b & OneBit(j) != 0 <==> HasBit(a, j) && HasBit(b, j)
  {
    assert j == 0 || j == 1 || j == 2 || j == 3 || j == 4 || j == 5 || j == 6 || j == 7;
    assert a & b & 1 != 0 <==> a & 1 != 0 && b & 1 != 0;
    assert a & b & 2 != 0 <==> a & 2 != 0 && b & 2 != 0;
    assert a & b & 4 != 0 <==> a & 4 != 0 && b & 4 != 0;
    assert a & b & 8 != 0 <==> a & 8 != 0 && b & 8 != 0;
    assert a & b & 16 != 0 <==> a & 16 != 0 && b & 16 != 0;
    assert a & b & 32 != 0 <==> a & 32 != 0 && b & 32 != 0;
    assert a & b & 64 != 0 <==> a & 64 != 0 && b & 64 != 0;
    assert a & b & 128 != 0 <==> a & 128 != 0 && b & 128 != 0;
  }

  // A mask that is not empty has one of its eight bits.
  lemma SomeBit(mask: bv8) returns (j: nat)
    requires mask != 0
    ensures j < 8 && mask & OneBit(j) != 0
  {
    j := if mask & 1 != 0 then 0 else if mask & 2 != 0 then 1 else if mask & 4 != 0 then 2
         else if mask & 8 != 0 then 3 else if mask & 16 != 0 then 4 else if mask & 32 != 0 then 5
         else if mask & 64 != 0 then 6 else 7;
    TopBit(mask);
  }

  lemma TopBit(mask: bv8)
    ensures mask != 0 && mask & 128 == 0 ==>
              || mask & 1 != 0 || mask & 2 != 0 || mask & 4 != 0 || mask & 8 != 0
              || mask & 16 != 0 || mask & 32 != 0 || mask & 64 != 0
  {
  }

  lemma SharedBits(a: bv8, b: bv8)
    ensures a & b != 0 <==> exists j: nat :: j < 8 && HasBit(a, j) && HasBit(b, j)
  {
    hide HasBit, OneBit;
    if a & b != 0 {
      var j := SomeBit(a & b);
      BitOfBoth(a, b, j);
    }
    if j: nat :| j < 8 && HasBit(a, j) && HasBit(b, j) {
      BitOfBoth(a, b, j);
      NothingShared(a & b, OneBit(j));
    }
  }

  lemma NothingShared(mask: bv8, bit: bv8)
    requires mask & bit != 0
    ensures mask != 0
  {
  }

  lemma StartsOneMore(entries: seq<SignatureEntry>, i: nat, low: nat, bits: nat)
    requires i < |entries| && entries[i].magic != []
    ensures var first := entries[i].magic[0];
            && (LowStarts(entries[..i + 1], low, bits)
                <==> LowStarts(entries[..i], low, bits) || (first % 16 == low && first / 16 % 8 == bits))
            && (HighStarts(entries[..i + 1], low) <==> HighStarts(entries[..i], low) || first / 16 == low)
  {
    var before, now := entries[..i], entries[..i + 1];
    assert now[i] == entries[i];
    forall k | 0 <= k < i
      ensures before[k] == now[k]
    {
    }
  }

  lemma AddKeepsExact(f: NibbleFilter, entries: seq<SignatureEntry>, i: nat)
    requires i < |entries| && entries[i].magic != [] && FilterOf(f, entries[..i])
    ensures FilterOf(AddToFilter(f, entries[i].magic[0]), entries[..i + 1])
  {
    var first := entries[i].magic[0];
    NibbleBitIs(first);
    var g := AddToFilter(f, first);
    hide LowStarts, HighStarts, HasBit, NibbleBit, OneBit;
    forall n: nat, j: nat | n < 16 && j < 8
      ensures HasBit(g.low[n], j) <==> LowStarts(entries[..i + 1], n, j)
      ensures HasBit(g.high[n], j) <==> j == n % 8 && HighStarts(entries[..i + 1], n)
    {
      StartsOneMore(entries, i, n, j);
      OneMoreBit(f.low[n], first / 16 % 8, j);
      OneMoreBit(f.high[n], first / 16 % 8, j);
    }
  }

  // Exactly the bytes pass that take their low nibble, and all but the top bit of
  // the high one, from one first byte, and their high nibble from one.
  lemma FilterIsExact(f: NibbleFilter, entries: seq<SignatureEntry>, value: byte)
    requires FilterOf(f, entries)
    ensures Passes(f, value) <==> LowStarts(entries, value % 16, value / 16 % 8) && HighStarts(entries, value / 16)
  {
    hide LowStarts, HighStarts, HasBit;
    SharedBits(f.low[value % 16], f.high[value / 16]);
  }

  // ---- The table ----

  // Group bounds are stored in 16 bits.
  const GROUP_LIMIT := 0x1_0000

  ghost predicate GroupIsSliced(entries: seq<SignatureEntry>, bounds: seq<nat>, first: nat)
    requires AllMagical(entries) && first + 1 < |bounds|
  {
    && bounds[first] <= bounds[first + 1] <= |entries|
    && entries[bounds[first]..bounds[first + 1]] == Group(entries, first)
  }

  // Between two consecutive bounds lies exactly that byte's group.
  ghost predicate SlicesGroups(entries: seq<SignatureEntry>, bounds: seq<nat>)
    requires AllMagical(entries)
  {
    forall first: nat :: first + 1 < |bounds| ==> GroupIsSliced(entries, bounds, first)
  }

  lemma SlicesOneMore(entries: seq<SignatureEntry>, bounds: seq<nat>, at: nat, end: nat)
    requires AllMagical(entries) && SlicesGroups(entries, bounds + [at])
    requires at <= end <= |entries| && entries[at..end] == Group(entries, |bounds|)
    ensures SlicesGroups(entries, bounds + [at] + [end])
  {
    var more := bounds + [at] + [end];
    forall first: nat | first + 1 < |more|
      ensures GroupIsSliced(entries, more, first)
    {
      if first + 1 < |bounds + [at]| {
        assert GroupIsSliced(entries, bounds + [at], first);
      }
    }
  }

  function GroupedUpTo(entries: seq<SignatureEntry>, limit: nat): nat
    requires AllMagical(entries)
  {
    if limit == 0 then 0 else GroupedUpTo(entries, limit - 1) + |Group(entries, limit - 1)|
  }

  lemma {:induction false} GroupedCons(entries: seq<SignatureEntry>, limit: nat)
    requires AllMagical(entries) && entries != []
    ensures GroupedUpTo(entries, limit)
            == GroupedUpTo(entries[1..], limit) + if Key(entries[0]) < limit then 1 else 0
  {
    hide Group;
    if limit == 0 {
    } else {
      GroupedCons(entries, limit - 1);
      GroupSizeCons(entries, limit - 1);
    }
  }

  lemma GroupSizeCons(entries: seq<SignatureEntry>, first: int)
    requires AllMagical(entries) && entries != []
    ensures |Group(entries, first)| == |Group(entries[1..], first)| + if Key(entries[0]) == first then 1 else 0
  {
    GroupStep(entries, first);
    hide Group;
  }

  lemma {:induction false} GroupedNone(limit: nat)
    ensures GroupedUpTo([], limit) == 0
  {
    if limit == 0 {
    } else {
      GroupedNone(limit - 1);
    }
  }

  // Every entry is in exactly one of the 256 groups.
  lemma {:induction false} GroupedAll(entries: seq<SignatureEntry>)
    requires AllMagical(entries)
    ensures GroupedUpTo(entries, 256) == |entries|
  {
    if entries == [] {
      GroupedNone(256);
    } else {
      GroupedAll(entries[1..]);
      GroupedCons(entries, 256);
    }
  }

  lemma {:induction false} BoundsCount(entries: seq<SignatureEntry>, begins: seq<nat>, limit: nat)
    requires AllMagical(entries) && |begins| == 257 && limit <= 256 && SlicesGroups(entries, begins)
    ensures begins[limit] == begins[0] + GroupedUpTo(entries, limit)
  {
    if limit == 0 {
    } else {
      BoundsCount(entries, begins, limit - 1);
      assert GroupIsSliced(entries, begins, limit - 1);
    }
  }

  // Bounds that fit 16 bits can index no more entries than 16 bits count.
  lemma NarrowBoundsIndexFewEntries(entries: seq<SignatureEntry>, begins: seq<nat>)
    requires AllMagical(entries) && |begins| == 257 && SlicesGroups(entries, begins)
    requires begins[256] < GROUP_LIMIT
    ensures |entries| < GROUP_LIMIT
  {
    BoundsCount(entries, begins, 256);
    GroupedAll(entries);
  }

  // All entries before `at` have smaller first bytes, all from it on not.
  ghost predicate SplitsAt(entries: seq<SignatureEntry>, at: nat, value: int)
    requires AllMagical(entries)
  {
    && at <= |entries|
    && (forall i :: 0 <= i < at ==> Key(entries[i]) < value)
    && (forall i :: at <= i < |entries| ==> value <= Key(entries[i]))
  }

  // Past the run of entries starting with `value`, the next byte's split.
  lemma RunEnds(entries: seq<SignatureEntry>, at: nat, end: nat, value: nat)
    requires AllMagical(entries) && SortedByKey(entries) && SplitsAt(entries, at, value)
    requires at <= end <= |entries|
    requires forall i :: at <= i < end ==> Key(entries[i]) == value
    requires end < |entries| ==> Key(entries[end]) != value
    ensures SplitsAt(entries, end, value + 1) && entries[at..end] == Group(entries, value)
  {
    hide Group;
    GroupIsRun(entries, value, at, end);
  }

  class SignatureTable {
    var entries: seq<SignatureEntry>
    const groupBegin: array<nat>
    const anyStartsWith: array<bool>
    var filter: NibbleFilter
    var usesFastPath: bool

    ghost predicate Shaped() reads this {
      && AllMagical(entries) && FilterShape(filter)
      && groupBegin.Length == 257 && anyStartsWith.Length == 256
    }

    // The byte-shaped reject agrees with the groups, and the vector-shaped one
    // never drops a byte something starts with.
    ghost predicate RejectsAgree()
      requires Shaped()
      reads this, anyStartsWith
    {
      && (forall first: nat :: first < 256 ==> (anyStartsWith[first] <==> Group(entries, first) != []))
      && (forall i :: 0 <= i < |entries| ==> Passes(filter, Key(entries[i])))
    }

    // A table the scan may use.
    ghost predicate Usable() reads this, groupBegin, anyStartsWith {
      Shaped() && SlicesGroups(entries, groupBegin[..]) && RejectsAgree()
    }

    constructor ()
      ensures Shaped() && entries == [] && fresh(groupBegin) && fresh(anyStartsWith)
    {
      entries := [];
      groupBegin := new nat[257](_ => 0);
      anyStartsWith := new bool[256](_ => false);
      filter := NibbleFilter(seq(16, _ => 0), seq(16, _ => 0));
      usesFastPath := false;
    }

    // Where the run of a first byte's entries ends, searched for from the front.
    method GroupEnd(value: nat) returns (at: nat)
      requires Shaped() && value < 256
      ensures groupBegin[value] <= at
      ensures groupBegin[value] <= |entries| ==> at <= |entries|
      ensures forall i :: groupBegin[value] <= i < at && i < |entries| ==> Key(entries[i]) == value
      ensures at < |entries| ==> Key(entries[at]) != value
    {
      at := groupBegin[value];
      while at < |entries| && Key(entries[at]) == value
        invariant groupBegin[value] <= at
        invariant groupBegin[value] <= |entries| ==> at <= |entries|
        invariant forall i :: groupBegin[value] <= i < at && i < |entries| ==> Key(entries[i]) == value
      {
        at := at + 1;
      }
    }

    // Where each group starts. The bounds are right exactly when their 16 bits
    // can count the entries.
    method IndexGroups()
      requires Shaped() && SortedByKey(entries)
      modifies groupBegin, anyStartsWith
      ensures SlicesGroups(entries, groupBegin[..]) <==> |entries| < 65536
      ensures |entries| < 65536 ==>
                forall first: nat :: first < 256 ==> (anyStartsWith[first] <==> Group(entries, first) != [])
    {
      hide Group, SortedByKey;
      var at: nat := 0;
      ghost var bounds: seq<nat> := [];
      assert SplitsAt(entries, 0, 0);
      for value := 0 to 256
        invariant |bounds| == value
        invariant forall k :: 0 <= k < value ==> groupBegin[k] == bounds[k] % GROUP_LIMIT
        invariant |entries| < GROUP_LIMIT ==>
                    && SplitsAt(entries, at, value) && SlicesGroups(entries, bounds + [at])
                    && forall k :: 0 <= k < value ==> bounds[k] <= |entries|
        invariant |entries| < GROUP_LIMIT ==>
                    forall first: nat :: first < value ==> (anyStartsWith[first] <==> Group(entries, first) != [])
      {
        groupBegin[value] := at % GROUP_LIMIT;
        var end := GroupEnd(value);
        anyStartsWith[value] := end > at;
        if |entries| < GROUP_LIMIT {
          RunEnds(entries, at, end, value);
          SlicesOneMore(entries, bounds, at, end);
          assert |entries[at..end]| == end - at;
        }
        bounds := bounds + [at];
        at := end;
      }
      groupBegin[256] := at % GROUP_LIMIT;
      if |entries| < GROUP_LIMIT {
        assert groupBegin[..] == bounds + [at];
      } else if SlicesGroups(entries, groupBegin[..]) {
        NarrowBoundsIndexFewEntries(entries, groupBegin[..]);
      }
    }

    method BuildNibbleFilter()
      requires Shaped()
      modifies this`filter
      ensures FilterOf(filter, entries)
      ensures forall i :: 0 <= i < |entries| ==> Passes(filter, Key(entries[i]))
    {
      hide HasBit, AddToFilter;
      filter := NibbleFilter(seq(16, _ => 0), seq(16, _ => 0));
      NoBits();
      for i := 0 to |entries|
        invariant FilterShape(filter) && FilterOf(filter, entries[..i])
        invariant forall k :: 0 <= k < i ==> Passes(filter, Key(entries[k]))
      {
        forall k | 0 <= k < i + 1
          ensures Passes(AddToFilter(filter, Key(entries[i])), Key(entries[k]))
        {
          AddToFilterPasses(filter, Key(entries[i]), Key(entries[k]));
        }
        AddKeepsExact(filter, entries, i);
        filter := AddToFilter(filter, Key(entries[i]));
      }
      assert entries[..|entries|] == entries;
    }

    // Built from the whole carver list. The table is one the scan may use
    // exactly when its 16-bit bounds can count the signatures.
    method Rebuild(carvers: seq<Carver>, fastPath: bool)
      requires Shaped()
      modifies this, groupBegin, anyStartsWith
      ensures Shaped() && AllMagical(Flatten(carvers)) && entries == StableSort(Flatten(carvers))
      ensures Usable() <==> |Flatten(carvers)| < 65536
      ensures FilterOf(filter, entries)
      ensures usesFastPath == fastPath
    {
      FlattenIsMagical(carvers, 0);
      StableSortKeepsGroups(Flatten(carvers));
      entries := StableSort(Flatten(carvers));
      IndexGroups();
      BuildNibbleFilter();
      usesFastPath := fastPath;
    }

    method None(first: byte) returns (none: bool)
      requires Usable()
      ensures none <==> Group(entries, first) == []
    {
      none := !anyStartsWith[first];
    }

    // The slice of the entries between a byte's two bounds.
    method StartingWith(first: byte) returns (group: seq<SignatureEntry>)
      requires Usable()
      ensures group == Group(entries, first)
    {
      assert GroupIsSliced(entries, groupBegin[..], first as nat);
      group := entries[groupBegin[first]..groupBegin[first + 1]];
    }
  }
}
