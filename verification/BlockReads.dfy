// What a read through a block cache yields, whatever the cache holds; and which
// blocks a least-recently-used cache holds, whatever was read.
module BlockReads {
  import opened Bytes
  import opened Outcomes
  import opened Devices

  // ---- The block size ----

  function BitCeil(n: nat): (ceil: nat)
    ensures ceil >= 1 && ceil >= n
  {
    if n <= 1 then 1 else 2 * BitCeil((n + 1) / 2)
  }

  lemma {:induction false} Pow2Positive(k: nat)
    ensures Pow2(k) >= 1
  {
    if k == 0 {
    } else {
      Pow2Positive(k - 1);
    }
  }

  // The least power of two that is at least `n`.
  lemma {:induction false} BitCeilIsLeast(n: nat, k: nat) returns (exponent: nat)
    ensures BitCeil(n) == Pow2(exponent)
    ensures Pow2(k) >= n ==> Pow2(k) >= BitCeil(n)
  {
    Pow2Positive(k);
    if n <= 1 {
      assert Pow2(0) == 1;
      exponent := 0;
    } else {
      var half := BitCeilIsLeast((n + 1) / 2, if k == 0 then 0 else k - 1);
      exponent := half + 1;
    }
  }

  // A block covers at least one sector, and is a power of two.
  function BlockBytesFor(shapeBlockBytes: nat, sectorSize: u32): (bytes: nat)
    ensures bytes >= 1 && bytes >= sectorSize && bytes >= shapeBlockBytes
  {
    BitCeil(Max(Max(shapeBlockBytes, sectorSize), 1))
  }

  // It is the least power of two that covers the sector and the shape asked for.
  lemma BlockBytesAreLeast(shapeBlockBytes: nat, sectorSize: u32, k: nat) returns (exponent: nat)
    ensures BlockBytesFor(shapeBlockBytes, sectorSize) == Pow2(exponent)
    ensures Pow2(exponent) >= shapeBlockBytes && Pow2(exponent) >= sectorSize
    ensures Pow2(k) >= shapeBlockBytes && Pow2(k) >= sectorSize ==> k >= exponent
  {
    Pow2Positive(k);
    exponent := BitCeilIsLeast(Max(Max(shapeBlockBytes, sectorSize), 1), k);
    if k < exponent {
      Pow2Grows(k, exponent);
    }
  }

  lemma {:induction false} Pow2Grows(a: nat, b: nat)
    requires a < b
    ensures Pow2(a) < Pow2(b)
  {
    Pow2Positive(b - 1);
    if a < b - 1 {
      Pow2Grows(a, b - 1);
    }
  }

  // ---- Blocks ----

  function Index(offset: nat, unit: nat): nat
    requires unit > 0
  {
    offset / unit
  }

  function Within(offset: nat, unit: nat): nat
    requires unit > 0
  {
    offset % unit
  }

  function Start(index: nat, unit: nat): nat {
    index * unit
  }

  lemma BlockHolds(offset: nat, unit: nat)
    requires unit > 0
    ensures Start(Index(offset, unit), unit) + Within(offset, unit) == offset && Within(offset, unit) < unit
  {
  }

  lemma StartsAreApart(a: nat, b: nat, unit: nat)
    requires a < b
    ensures Start(a, unit) + unit <= Start(b, unit)
  {
    assert (b - a - 1) * unit >= 0;
    assert Start(b, unit) == a * unit + unit + (b - a - 1) * unit;
  }

  lemma NextStart(index: nat, unit: nat)
    ensures Start(index + 1, unit) == Start(index, unit) + unit
  {
  }

  lemma IndexIs(index: nat, unit: nat, at: nat)
    requires unit > 0 && Start(index, unit) <= at < Start(index, unit) + unit
    ensures Index(at, unit) == index
  {
    hide Index, Start, Within;
    BlockHolds(at, unit);
    if Index(at, unit) < index {
      StartsAreApart(Index(at, unit), index, unit);
    } else if index < Index(at, unit) {
      StartsAreApart(index, Index(at, unit), unit);
    }
  }

  lemma IndexGrows(a: nat, b: nat, unit: nat)
    requires unit > 0 && a <= b
    ensures Index(a, unit) <= Index(b, unit)
  {
    hide Index, Start, Within;
    BlockHolds(a, unit);
    BlockHolds(b, unit);
    if Index(b, unit) < Index(a, unit) {
      StartsAreApart(Index(b, unit), Index(a, unit), unit);
    }
  }

  // The read the cache issues for block `index`.
  function BlockAt(device: Device, unit: u64, index: nat): Result<seq<byte>>
    requires Start(index, unit) < U64_LIMIT
  {
    ReadAt(device, Start(index, unit), unit)
  }

  // As much of `count` bytes as a block supplies from its byte `within`.
  function Supplied(block: seq<byte>, within: nat, count: nat): (supplied: nat)
    ensures supplied <= count && (supplied > 0 ==> within + supplied <= |block|)
  {
    if within >= |block| then 0 else Min(count, |block| - within)
  }

  // `count` bytes from `offset`, put together block by block.
  function Copied(device: Device, unit: u64, offset: nat, count: nat): Result<seq<byte>>
    requires unit > 0 && offset + count < U64_LIMIT
    decreases count
  {
    if count == 0 then Ok([])
    else
      var within := Within(offset, unit);
      BlockHolds(offset, unit);
      match BlockAt(device, unit, Index(offset, unit))
      case Err(code, at) => Err(code, at)
      case Ok(block) =>
        var supplied := Supplied(block, within, count);
        if supplied == 0 then Ok([])
        else
          match Copied(device, unit, offset + supplied, count - supplied)
          case Err(code, at) => Err(code, at)
          case Ok(rest) => Ok(block[within..within + supplied] + rest)
  }

  // A read through a cache of `unit`-byte blocks, whatever the cache holds.
  function CachedRead(device: Device, unit: u64, offset: u64, want: u64): Result<seq<byte>>
    requires unit > 0
  {
    match ClampReadRange(offset, want, |device.bytes|)
    case Err(code, at) => Err(code, at)
    case Ok(count) => Copied(device, unit, offset, count)
  }

  // The blocks served on the way, in order.
  function Served(device: Device, unit: u64, offset: nat, count: nat): seq<nat>
    requires unit > 0 && offset + count < U64_LIMIT
    decreases count
  {
    if count == 0 then []
    else
      BlockHolds(offset, unit);
      match BlockAt(device, unit, Index(offset, unit))
      case Err(_, _) => []
      case Ok(block) =>
        var supplied := Supplied(block, Within(offset, unit), count);
        [Index(offset, unit)]
        + if supplied == 0 then [] else Served(device, unit, offset + supplied, count - supplied)
  }

  // ---- Transparency ----

  // Block `index` can be read whole: its request stays inside 64 bits, and the
  // device faults nowhere inside it.
  predicate Loadable(device: Device, unit: nat, index: nat) {
    && Start(index, unit) + unit < U64_LIMIT
    && Readable(device, Start(index, unit), Min(Start(index, unit) + unit, |device.bytes|))
  }

  predicate AllLoadable(device: Device, unit: nat, first: nat, end: nat) {
    forall index :: first <= index < end ==> Loadable(device, unit, index)
  }

  // What loading a block that cannot be read whole reports.
  function LoadFailure(unit: nat, index: nat): Result<seq<byte>> {
    Err(if Start(index, unit) + unit >= U64_LIMIT then Overflow else IoFailure, Start(index, unit))
  }

  // One past the last block a nonempty range reaches into.
  function CoverEnd(unit: nat, offset: nat, count: nat): nat
    requires unit > 0 && count > 0
  {
    Index(offset + count - 1, unit) + 1
  }

  function SliceOf(device: Device, from: nat, to: nat): seq<byte>
    requires from <= to <= |device.bytes|
  {
    device.bytes[from..to]
  }

  lemma SlicesJoin(device: Device, a: nat, b: nat, c: nat)
    requires a <= b <= c <= |device.bytes|
    ensures SliceOf(device, a, b) + SliceOf(device, b, c) == SliceOf(device, a, c)
  {
  }

  lemma SliceInside(device: Device, start: nat, end: nat, within: nat, count: nat)
    requires start + within + count <= end <= |device.bytes|
    ensures |SliceOf(device, start, end)| == end - start
    ensures SliceOf(device, start, end)[within..within + count] == SliceOf(device, start + within, start + within + count)
  {
  }

  lemma BlockReadIs(device: Device, unit: u64, index: nat)
    requires unit > 0 && Addressable(device) && Start(index, unit) < |device.bytes|
    ensures BlockAt(device, unit, index)
            == if Loadable(device, unit, index)
               then Ok(SliceOf(device, Start(index, unit), Min(Start(index, unit) + unit, |device.bytes|)))
               else LoadFailure(unit, index)
  {
    hide Start;
  }

  // One block either ends the copy or carries it to the next block's start.
  lemma SuppliedIs(device: Device, unit: u64, offset: nat, count: nat)
    requires unit > 0 && count > 0 && offset + count <= |device.bytes| && Addressable(device)
    requires Loadable(device, unit, Index(offset, unit))
    ensures Start(Index(offset, unit), unit) <= offset
    ensures var block, within := BlockAt(device, unit, Index(offset, unit)), Within(offset, unit);
            && block.Ok?
            && var supplied := Supplied(block.value, within, count);
               && supplied == Min(count, Start(Index(offset, unit), unit) + unit - offset) > 0
               && within + supplied <= |block.value|
               && block.value[within..within + supplied] == SliceOf(device, offset, offset + supplied)
  {
    hide Start, Index, Within, Loadable, BlockAt;
    BlockHolds(offset, unit);
    BlockReadIs(device, unit, Index(offset, unit));
    var start, within := Start(Index(offset, unit), unit), Within(offset, unit);
    var end := Min(start + unit, |device.bytes|);
    SliceInside(device, start, end, within, Min(count, end - offset));
  }

  lemma CoverMovesOn(unit: nat, offset: nat, count: nat)
    requires unit > 0 && count > 0
    ensures var next := Start(Index(offset, unit), unit) + unit;
            if offset + count <= next then CoverEnd(unit, offset, count) == Index(offset, unit) + 1
            else && next > offset && Index(next, unit) == Index(offset, unit) + 1
                 && CoverEnd(unit, next, offset + count - next) == CoverEnd(unit, offset, count)
  {
    hide Index, Start, Within;
    var index := Index(offset, unit);
    var next := Start(index, unit) + unit;
    BlockHolds(offset, unit);
    if offset + count <= next {
      IndexIs(index, unit, offset + count - 1);
    } else {
      NextStart(index, unit);
      IndexIs(index + 1, unit, next);
    }
  }

  lemma CoverIsNotEmpty(unit: nat, offset: nat, count: nat)
    requires unit > 0 && count > 0
    ensures Index(offset, unit) < CoverEnd(unit, offset, count)
  {
    IndexGrows(offset, offset + count - 1, unit);
  }

  // Every block the range reaches into can be read: the device's own bytes.
  lemma {:induction false} CopyOfLoadable(device: Device, unit: u64, offset: nat, count: nat)
    requires unit > 0 && count > 0 && Addressable(device) && offset + count <= |device.bytes|
    requires AllLoadable(device, unit, Index(offset, unit), CoverEnd(unit, offset, count))
    ensures Copied(device, unit, offset, count) == Ok(SliceOf(device, offset, offset + count))
    decreases count
  {
    hide Loadable, Supplied, BlockAt, CoverEnd, Index, Start, Within, SliceOf;
    CoverMovesOn(unit, offset, count);
    CoverIsNotEmpty(unit, offset, count);
    SuppliedIs(device, unit, offset, count);
    var supplied := Supplied(BlockAt(device, unit, Index(offset, unit)).value, Within(offset, unit), count);
    if supplied < count {
      CopyOfLoadable(device, unit, offset + supplied, count - supplied);
      SlicesJoin(device, offset, offset + supplied, offset + count);
    } else {
      NothingCopied(device, unit, offset + supplied);
      assert SliceOf(device, offset, offset + supplied) + [] == SliceOf(device, offset, offset + supplied);
    }
  }

  // Otherwise the first that cannot is what the read reports.
  lemma {:induction false} CopyOfUnloadable(device: Device, unit: u64, offset: nat, count: nat) returns (index: nat)
    requires unit > 0 && count > 0 && Addressable(device) && offset + count <= |device.bytes|
    requires !AllLoadable(device, unit, Index(offset, unit), CoverEnd(unit, offset, count))
    ensures Index(offset, unit) <= index < CoverEnd(unit, offset, count)
    ensures AllLoadable(device, unit, Index(offset, unit), index) && !Loadable(device, unit, index)
    ensures Copied(device, unit, offset, count) == LoadFailure(unit, index)
    decreases count
  {
    hide Loadable, Supplied, BlockAt, CoverEnd, Index, Start, Within, SliceOf;
    CoverMovesOn(unit, offset, count);
    CoverIsNotEmpty(unit, offset, count);
    BlockHolds(offset, unit);
    BlockReadIs(device, unit, Index(offset, unit));
    index := Index(offset, unit);
    if Loadable(device, unit, index) {
      SuppliedIs(device, unit, offset, count);
      var supplied := Supplied(BlockAt(device, unit, index).value, Within(offset, unit), count);
      index := CopyOfUnloadable(device, unit, offset + supplied, count - supplied);
    }
  }

  lemma WithinCover(device: Device, unit: nat, offset: nat, count: nat, i: nat) returns (index: nat)
    requires unit > 0 && count > 0 && offset <= i < offset + count <= |device.bytes| && i in device.faults
    ensures Index(offset, unit) <= index < CoverEnd(unit, offset, count) && !Loadable(device, unit, index)
  {
    hide Index, Start, Within;
    index := Index(i, unit);
    BlockHolds(i, unit);
    IndexGrows(offset, i, unit);
    IndexGrows(i, offset + count - 1, unit);
  }

  // A cached read is the device's own read, except that it fails, too, when some
  // block the range reaches into cannot be read whole; then it reports the first
  // such block.
  lemma CachingIsTransparent(device: Device, unit: u64, offset: u64, want: u64)
    requires unit > 0 && Addressable(device)
    ensures var count := ClampReadRange(offset, want, |device.bytes|);
            if count.Ok? && count.value > 0
            then
              var first, end := Index(offset, unit), CoverEnd(unit, offset, count.value);
              if AllLoadable(device, unit, first, end)
              then CachedRead(device, unit, offset, want) == ReadAt(device, offset, want)
                   && ReadAt(device, offset, want).Ok?
              else exists index: nat ::
                     && first <= index < end && !Loadable(device, unit, index)
                     && AllLoadable(device, unit, first, index)
                     && CachedRead(device, unit, offset, want) == LoadFailure(unit, index)
            else CachedRead(device, unit, offset, want) == ReadAt(device, offset, want)
  {
    hide Copied, Loadable, CoverEnd, Index, LoadFailure;
    var clamped := ClampReadRange(offset, want, |device.bytes|);
    if clamped.Ok? && clamped.value > 0 {
      var count := clamped.value;
      if AllLoadable(device, unit, Index(offset, unit), CoverEnd(unit, offset, count)) {
        CopyOfLoadable(device, unit, offset, count);
        RangeIsReadable(device, unit, offset, count);
      } else {
        var index := CopyOfUnloadable(device, unit, offset, count);
      }
    } else if clamped.Ok? {
      NothingCopied(device, unit, offset);
    }
  }

  lemma RangeIsReadable(device: Device, unit: nat, offset: nat, count: nat)
    requires unit > 0 && count > 0 && offset + count <= |device.bytes|
    requires AllLoadable(device, unit, Index(offset, unit), CoverEnd(unit, offset, count))
    ensures Readable(device, offset, offset + count)
  {
    hide Loadable, CoverEnd, Index;
    forall i | offset <= i < offset + count
      ensures i !in device.faults
    {
      if i in device.faults {
        var index := WithinCover(device, unit, offset, count, i);
      }
    }
  }

  // The cache fails a read the device would serve exactly when the range itself
  // is readable and some block it reaches into cannot be loaded whole. What it
  // does serve is what the device would.
  lemma OnlyTheCacheFails(device: Device, unit: u64, offset: u64, want: u64)
    requires unit > 0 && Addressable(device)
    ensures var count := ClampReadRange(offset, want, |device.bytes|);
            ReadAt(device, offset, want).Ok? && CachedRead(device, unit, offset, want).Err?
            <==> && count.Ok? && count.value > 0
                 && Readable(device, offset, offset + count.value)
                 && !AllLoadable(device, unit, Index(offset, unit), CoverEnd(unit, offset, count.value))
    ensures CachedRead(device, unit, offset, want).Ok? ==>
              CachedRead(device, unit, offset, want) == ReadAt(device, offset, want)
  {
    CachingIsTransparent(device, unit, offset, want);
    hide CachedRead, Loadable, CoverEnd, Index, Readable;
  }

  // One block of zeros whose last byte cannot be read.
  function WornBlock(unit: u64): Device
    requires unit > 0
  {
    Device(seq(unit, _ => 0), {unit - 1}, 512)
  }

  // A fault in the same block fails a read of bytes that are fine.
  lemma NeighbouringFaultFails(unit: u64)
    requires unit >= 2
    ensures ReadAt(WornBlock(unit), 0, 1) == Ok([0])
    ensures CachedRead(WornBlock(unit), unit, 0, 1) == Err(IoFailure, 0)
  {
    var device := WornBlock(unit);
    assert device.bytes[0..1] == [0];
    IndexIs(0, unit, 0);
    NextStart(0, unit);
    assert unit - 1 in device.faults;
    BlockReadIs(device, unit, 0);
    hide BlockAt, Index;
  }

  // The widest device there is, without a fault.
  function WidestDevice(): Device {
    Device(seq(U64_MAX, _ => 0), {}, 512)
  }

  // The last byte of it lies in a block that would end past the last 64-bit
  // offset, whatever even size blocks have.
  lemma LastBlockOverflows(unit: u64)
    requires unit > 0 && unit % 2 == 0
    ensures ReadAt(WidestDevice(), U64_MAX - 1, 1) == Ok([0])
    ensures CachedRead(WidestDevice(), unit, U64_MAX - 1, 1) == Err(Overflow, Start(Index(U64_MAX - 1, unit), unit))
  {
    var device := WidestDevice();
    assert device.bytes[U64_MAX - 1..U64_MAX] == [0];
    var index := Index(U64_MAX - 1, unit);
    BlockHolds(U64_MAX - 1, unit);
    EvenStart(index, unit);
    BlockReadIs(device, unit, index);
    hide BlockAt, Index, Start, Within;
  }

  lemma EvenStart(index: nat, unit: nat)
    requires unit % 2 == 0
    ensures Start(index, unit) % 2 == 0
  {
    assert Start(index, unit) == 2 * (index * (unit / 2)) by {
      assert unit == 2 * (unit / 2);
    }
  }

  lemma NothingCopied(device: Device, unit: u64, offset: nat)
    requires unit > 0 && offset < U64_LIMIT
    ensures Copied(device, unit, offset, 0) == Ok([])
  {
  }

  // A read that succeeds was served the blocks its range reaches into, in order.
  lemma {:induction false} ServedIsTheCover(device: Device, unit: u64, offset: nat, count: nat)
    requires unit > 0 && count > 0 && Addressable(device) && offset + count <= |device.bytes|
    requires AllLoadable(device, unit, Index(offset, unit), CoverEnd(unit, offset, count))
    ensures var served := Served(device, unit, offset, count);
            && |served| == CoverEnd(unit, offset, count) - Index(offset, unit)
            && forall k :: 0 <= k < |served| ==> served[k] == Index(offset, unit) + k
    decreases count
  {
    hide Loadable, Supplied, BlockAt, CoverEnd, Index, Start, Within, SliceOf;
    CoverMovesOn(unit, offset, count);
    CoverIsNotEmpty(unit, offset, count);
    SuppliedIs(device, unit, offset, count);
    var supplied := Supplied(BlockAt(device, unit, Index(offset, unit)).value, Within(offset, unit), count);
    if supplied < count {
      ServedIsTheCover(device, unit, offset + supplied, count - supplied);
    } else {
      assert Served(device, unit, offset + supplied, 0) == [];
    }
  }

  // ---- Least recently used ----

  function Without(order: seq<nat>, index: nat): seq<nat> {
    if order == [] then []
    else if order[0] == index then order[1..]
    else [order[0]] + Without(order[1..], index)
  }

  // The blocks served, the most recent first, each once.
  function Recent(uses: seq<nat>): seq<nat> {
    if uses == [] then []
    else
      var last := |uses| - 1;
      [uses[last]] + Without(Recent(uses[..last]), uses[last])
  }

  function Front(order: seq<nat>, count: nat): seq<nat> {
    order[..Min(|order|, count)]
  }

  // What the cache does to its order when a block is served.
  function Touched(order: seq<nat>, index: nat, capacity: nat): seq<nat>
    requires capacity > 0
  {
    if index in order then [index] + Without(order, index)
    else [index] + Front(order, capacity - 1)
  }

  lemma {:induction false} WithoutAbsent(order: seq<nat>, index: nat)
    requires index !in order
    ensures Without(order, index) == order
  {
    if order == [] {
    } else {
      WithoutAbsent(order[1..], index);
    }
  }

  lemma {:induction false} WithoutPresent(order: seq<nat>, index: nat)
    requires index in order
    ensures |Without(order, index)| == |order| - 1
  {
    if order[0] != index {
      WithoutPresent(order[1..], index);
    }
  }

  lemma {:induction false} WithoutLater(order: seq<nat>, index: nat, count: nat)
    requires count <= |order|
    ensures index in order[..count] ==>
              |Without(order, index)| == |order| - 1 && Without(order, index)[..count - 1] == Without(order[..count], index)
    ensures index !in order[..count] ==>
              |Without(order, index)| >= count && Without(order, index)[..count] == order[..count]
  {
    if order == [] || count == 0 {
      if index in order {
        WithoutPresent(order, index);
      } else {
        WithoutAbsent(order, index);
      }
    } else if order[0] == index {
      assert order[..count][1..] == order[1..][..count - 1];
      assert order[..count][0] == index;
    } else {
      assert order[..count][1..] == order[1..][..count - 1];
      assert order[..count] == [order[0]] + order[1..][..count - 1];
      WithoutLater(order[1..], index, count - 1);
    }
  }

  // Serving a block keeps the cache's order the most recent ones there were.
  lemma TouchKeepsMostRecent(recent: seq<nat>, index: nat, capacity: nat)
    requires capacity > 0
    ensures Touched(Front(recent, capacity), index, capacity) == Front([index] + Without(recent, index), capacity)
  {
    hide Without;
    var count := Min(|recent|, capacity);
    WithoutLater(recent, index, count);
    if index !in recent[..count] {
      if |recent| < capacity {
        assert recent[..count] == recent;
        WithoutAbsent(recent, index);
      } else {
        assert recent[..count][..capacity - 1] == recent[..capacity - 1];
        WithoutLater(recent, index, capacity - 1);
      }
    }
  }

  function LastUse(uses: seq<nat>, index: nat): nat
    requires index in uses
  {
    var last := |uses| - 1;
    if uses[last] == index then last else LastUse(uses[..last], index)
  }

  predicate NewestFirst(uses: seq<nat>, order: seq<nat>) {
    order == []
    || (&& order[0] in uses
        && (forall x :: x in order[1..] ==> x in uses && LastUse(uses, x) < LastUse(uses, order[0]))
        && NewestFirst(uses, order[1..]))
  }

  lemma {:induction false} LastUseInside(uses: seq<nat>, index: nat)
    requires index in uses
    ensures LastUse(uses, index) < |uses| && uses[LastUse(uses, index)] == index
  {
    var last := |uses| - 1;
    if uses[last] != index {
      LastUseInside(uses[..last], index);
    }
  }

  // Leaving a block out keeps the rest, in the order it was.
  lemma {:induction false} WithoutKeepsOrder(uses: seq<nat>, order: seq<nat>, index: nat)
    requires NewestFirst(uses, order)
    ensures NewestFirst(uses, Without(order, index)) && index !in Without(order, index)
    ensures forall x :: x in Without(order, index) ==> x in order
    ensures forall x :: x in order && x != index ==> x in Without(order, index)
  {
    hide LastUse;
    if order == [] {
    } else {
      assert order == [order[0]] + order[1..];
      if order[0] != index {
        WithoutKeepsOrder(uses, order[1..], index);
        assert Without(order, index)[1..] == Without(order[1..], index);
      }
    }
  }

  lemma LastUseBefore(before: seq<nat>, index: nat, x: nat)
    requires x in before && x != index
    ensures x in before + [index] && LastUse(before + [index], x) == LastUse(before, x)
  {
    assert (before + [index])[..|before|] == before;
  }

  lemma {:induction false} NewestFirstLater(before: seq<nat>, index: nat, order: seq<nat>)
    requires NewestFirst(before, order) && index !in order
    ensures NewestFirst(before + [index], order)
  {
    if order == [] {
    } else {
      hide LastUse;
      LastUseBefore(before, index, order[0]);
      forall x | x in order[1..]
        ensures x in before + [index] && LastUse(before + [index], x) < LastUse(before + [index], order[0])
      {
        LastUseBefore(before, index, x);
      }
      NewestFirstLater(before, index, order[1..]);
    }
  }

  // `Recent` is every block served, ordered by its last use, the newest first:
  // so what falls off the end of the cache is the least recently used.
  lemma {:induction false} RecentIsByLastUse(uses: seq<nat>)
    ensures NewestFirst(uses, Recent(uses))
    ensures forall x :: x in uses <==> x in Recent(uses)
  {
    if uses == [] {
    } else {
      var last := |uses| - 1;
      var before, index := uses[..last], uses[last];
      assert uses == before + [index];
      RecentIsByLastUse(before);
      WithoutKeepsOrder(before, Recent(before), index);
      var rest := Without(Recent(before), index);
      assert Recent(uses) == [index] + rest;
      NewestFirstLater(before, index, rest);
      hide Without, Recent, LastUse;
      NewestInFront(before, index, rest);
    }
  }

  lemma NewestInFront(before: seq<nat>, index: nat, rest: seq<nat>)
    requires NewestFirst(before + [index], rest) && index !in rest && forall x :: x in rest ==> x in before
    ensures NewestFirst(before + [index], [index] + rest)
  {
    var uses := before + [index];
    assert LastUse(uses, index) == |before|;
    hide NewestFirst;
    forall x | x in rest
      ensures x in uses && LastUse(uses, x) < |before|
    {
      LastUseInside(uses, x);
    }
    assert ([index] + rest)[1..] == rest;
    NewestFirstIs(uses, [index] + rest);
  }

  lemma NewestFirstIs(uses: seq<nat>, order: seq<nat>)
    requires order != [] && order[0] in uses && NewestFirst(uses, order[1..])
    requires forall x :: x in order[1..] ==> x in uses && LastUse(uses, x) < LastUse(uses, order[0])
    ensures NewestFirst(uses, order)
  {
    hide LastUse;
  }

  predicate NoRepeat(order: seq<nat>) {
    order == [] || (order[0] !in order[1..] && NoRepeat(order[1..]))
  }

  lemma {:induction false} WithoutLeavesNone(order: seq<nat>, index: nat)
    requires NoRepeat(order)
    ensures NoRepeat(Without(order, index)) && index !in Without(order, index)
    ensures forall x :: x in Without(order, index) ==> x in order
  {
    if order != [] && order[0] != index {
      WithoutLeavesNone(order[1..], index);
      assert Without(order, index)[1..] == Without(order[1..], index);
    }
  }

  lemma {:induction false} FrontHasNoRepeat(order: seq<nat>, count: nat)
    requires NoRepeat(order) && count < |order|
    ensures NoRepeat(order[..count]) && order[count] !in order[..count]
  {
    if count == 0 {
    } else {
      FrontHasNoRepeat(order[1..], count - 1);
      assert order[..count][1..] == order[1..][..count - 1];
    }
  }
}
