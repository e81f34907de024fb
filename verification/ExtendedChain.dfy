// The chain of extended boot records behind an extended partition: each link
// holds at most one logical partition and points at the next.
module ExtendedChains {
  import opened Bytes
  import opened Outcomes
  import opened Devices

  const MBR_SECTOR_BYTES := 512
  const TABLE_OFFSET := 0x1BE
  const SLOT_BYTES := 16
  const SIGNATURE_OFFSET := 0x1FE
  const TABLE_SIGNATURE := 0xAA55
  const TYPE_FIELD := 0x04
  const START_LBA_FIELD := 0x08
  const SECTOR_COUNT_FIELD := 0x0C
  const UNUSED_TYPE: byte := 0x00
  const MAX_LOGICAL_PARTITIONS := 128

  // ---- One table sector ----

  datatype Entry = Entry(kind: byte, startLba: u32, sectorCount: u32)

  predicate IsExtendedType(kind: byte) {
    kind == 0x05 || kind == 0x0F || kind == 0x85
  }

  function ReadLe32(sector: seq<byte>, at: nat): u32
    requires at + 4 <= |sector|
  {
    FromLittleEndianBound(sector[at..at + 4]);
    CapacityOfFields();
    FromLittleEndian(sector[at..at + 4])
  }

  // One 16-byte slot. A used slot must start past the table and hold a sector.
  function EntryAt(sector: seq<byte>, at: nat): Result<Entry>
    requires at + SLOT_BYTES <= |sector|
  {
    if sector[at] != 0x00 && sector[at] != 0x80 then Err(InvalidArgument, at)
    else
      var kind := sector[at + TYPE_FIELD];
      var start := ReadLe32(sector, at + START_LBA_FIELD);
      var count := ReadLe32(sector, at + SECTOR_COUNT_FIELD);
      if kind != UNUSED_TYPE && start == 0 then Err(InvalidArgument, at + START_LBA_FIELD)
      else if kind != UNUSED_TYPE && count == 0 then Err(InvalidArgument, at + SECTOR_COUNT_FIELD)
      else Ok(Entry(kind, start, count))
  }

  // The slots from `index` on; a refusal anywhere is the whole table's.
  function EntriesFrom(sector: seq<byte>, index: nat): (entries: Result<seq<Entry>>)
    requires |sector| == MBR_SECTOR_BYTES && index <= 4
    ensures entries.Ok? ==> |entries.value| == 4 - index
    decreases 4 - index
  {
    if index == 4 then Ok([])
    else
      match EntryAt(sector, TABLE_OFFSET + index * SLOT_BYTES)
      case Err(code, offset) => Err(code, offset)
      case Ok(entry) =>
        match EntriesFrom(sector, index + 1)
        case Err(code, offset) => Err(code, offset)
        case Ok(rest) => Ok([entry] + rest)
  }

  function ParseMbrSector(sector: seq<byte>): (entries: Result<seq<Entry>>)
    ensures entries.Ok? ==> |entries.value| == 4
  {
    if |sector| < MBR_SECTOR_BYTES then Err(OutOfRange, |sector|)
    else
      var table := sector[..MBR_SECTOR_BYTES];
      if FromLittleEndian(table[SIGNATURE_OFFSET..SIGNATURE_OFFSET + 2]) != TABLE_SIGNATURE
      then Err(InvalidArgument, SIGNATURE_OFFSET)
      else EntriesFrom(table, 0)
  }

  // A slot a table may hold: its status byte is one of the two there are, and a
  // used slot neither starts at the table's own sector nor spans no sectors.
  predicate SlotIsValid(sector: seq<byte>, index: nat)
    requires |sector| >= MBR_SECTOR_BYTES && index < 4
  {
    var at := 446 + 16 * index;
    && (sector[at] == 0x00 || sector[at] == 0x80)
    && (sector[at + 4] == 0x00
        || (sector[at + 8..at + 12] != [0, 0, 0, 0] && sector[at + 12..at + 16] != [0, 0, 0, 0]))
  }

  lemma ZeroField(raw: seq<byte>)
    requires |raw| == 4
    ensures FromLittleEndian(raw) == 0 <==> raw == [0, 0, 0, 0]
  {
    FourBytes(raw);
  }

  lemma SlotIsRead(sector: seq<byte>, index: nat)
    requires |sector| == MBR_SECTOR_BYTES && index < 4
    ensures var entry := EntryAt(sector, TABLE_OFFSET + index * SLOT_BYTES);
            && (entry.Ok? <==> SlotIsValid(sector, index))
            && (entry.Ok? ==> entry.value.kind == sector[TABLE_OFFSET + index * SLOT_BYTES + TYPE_FIELD])
  {
    hide FromLittleEndian;
    var at := TABLE_OFFSET + index * SLOT_BYTES;
    ZeroField(sector[at + START_LBA_FIELD..at + START_LBA_FIELD + 4]);
    ZeroField(sector[at + SECTOR_COUNT_FIELD..at + SECTOR_COUNT_FIELD + 4]);
  }

  lemma {:induction false} SlotsAreRead(sector: seq<byte>, index: nat)
    requires |sector| == MBR_SECTOR_BYTES && index <= 4
    ensures EntriesFrom(sector, index).Ok? <==> forall i :: index <= i < 4 ==> SlotIsValid(sector, i)
    ensures EntriesFrom(sector, index).Ok? ==>
              forall i :: index <= i < 4 ==>
                Ok(EntriesFrom(sector, index).value[i - index]) == EntryAt(sector, TABLE_OFFSET + i * SLOT_BYTES)
    decreases 4 - index
  {
    hide EntryAt, SlotIsValid;
    if index < 4 {
      SlotIsRead(sector, index);
      SlotsAreRead(sector, index + 1);
    }
  }

  lemma SignatureBytes(raw: seq<byte>)
    requires |raw| == 2
    ensures FromLittleEndian(raw) == TABLE_SIGNATURE <==> raw == [0x55, 0xAA]
  {
    assert raw[1..][1..] == [] && FromLittleEndian(raw[1..]) == raw[1];
  }

  // A sector parses exactly when it carries the signature and four valid slots,
  // and then yields them all.
  lemma TableIsExact(sector: seq<byte>)
    ensures ParseMbrSector(sector).Ok? <==>
              && |sector| >= 512 && sector[510] == 0x55 && sector[511] == 0xAA
              && forall i :: 0 <= i < 4 ==> SlotIsValid(sector[..512], i)
    ensures ParseMbrSector(sector).Ok? ==>
              forall i :: 0 <= i < 4 ==>
                Ok(ParseMbrSector(sector).value[i]) == EntryAt(sector[..MBR_SECTOR_BYTES], TABLE_OFFSET + i * SLOT_BYTES)
  {
    hide EntryAt, SlotIsValid, EntriesFrom, FromLittleEndian;
    if |sector| >= MBR_SECTOR_BYTES {
      var table := sector[..MBR_SECTOR_BYTES];
      SignatureBytes(table[SIGNATURE_OFFSET..SIGNATURE_OFFSET + 2]);
      SlotsAreRead(table, 0);
    }
  }

  // ---- One link ----

  datatype Partition = Partition(startBytes: u64, lengthBytes: u64, typeCode: byte, logical: bool)

  datatype Link = Link(partition: Option<Partition>, nextLba: u64)

  // How many whole sectors the device has.
  function SectorCount(device: Device): nat {
    if device.sectorSize == 0 then 0 else |device.bytes| / device.sectorSize
  }

  lemma SectorIsInside(lba: nat, size: nat, sectorSize: nat)
    requires sectorSize > 0 && lba < size / sectorSize
    ensures lba * sectorSize < size
  {
    assert size / sectorSize * sectorSize <= size;
    assert (size / sectorSize - lba) * sectorSize > 0;
    assert size / sectorSize * sectorSize == lba * sectorSize + (size / sectorSize - lba) * sectorSize;
  }

  function ByteOffsetOf(device: Device, lba: nat): Result<u64>
    requires Addressable(device)
  {
    if device.sectorSize == 0 then Err(InvalidArgument, 0)
    else if lba >= |device.bytes| / device.sectorSize then Err(OutOfRange, |device.bytes|)
    else
      SectorIsInside(lba, |device.bytes|, device.sectorSize);
      Ok(lba * device.sectorSize)
  }

  function ReadTableSector(device: Device, lba: nat): Result<seq<byte>>
    requires Addressable(device)
  {
    match ByteOffsetOf(device, lba)
    case Err(code, at) => Err(code, at)
    case Ok(offset) =>
      match ReadAt(device, offset, MBR_SECTOR_BYTES)
      case Err(code, at) => Err(code, at)
      case Ok(sector) => if |sector| < MBR_SECTOR_BYTES then Err(OutOfRange, offset) else Ok(sector)
  }

  lemma ProductFits(a: nat, b: nat)
    requires a < U32_LIMIT && b < U32_LIMIT
    ensures a * b < U64_LIMIT
  {
    ProductGrows(a, 0xFFFF_FFFF, b);
  }

  // A slot's extent in bytes; only its start can leave 64 bits.
  function PartitionOf(startLba: u64, entry: Entry, sectorSize: u32): Result<Partition> {
    if startLba * sectorSize >= U64_LIMIT then Err(Overflow, 0)
    else
      ProductFits(entry.sectorCount, sectorSize);
      Ok(Partition(startLba * sectorSize, entry.sectorCount * sectorSize, entry.kind, true))
  }

  // The first slot, relative to the link that holds it.
  function LogicalOf(device: Device, lba: u64, entry: Entry): Result<Option<Partition>>
    requires lba + U32_LIMIT < U64_LIMIT
  {
    if entry.kind == UNUSED_TYPE || IsExtendedType(entry.kind) then Ok(None)
    else
      match PartitionOf(lba + entry.startLba, entry, device.sectorSize)
      case Err(code, at) => Err(code, at)
      case Ok(partition) => Ok(Some(partition))
  }

  // The second slot counts from where the chain began, whichever link states it.
  function NextLbaOf(extendedStartLba: u32, entry: Entry): u64 {
    if IsExtendedType(entry.kind) then extendedStartLba + entry.startLba else 0
  }

  predicate Reachable(lba: u64) {
    lba < 2 * U32_LIMIT
  }

  function LinkAt(device: Device, extendedStartLba: u32, lba: u64): (link: Result<Link>)
    requires Addressable(device) && Reachable(lba)
    ensures link.Ok? ==> lba < SectorCount(device) && Reachable(link.value.nextLba)
  {
    match ReadTableSector(device, lba)
    case Err(code, at) => Err(code, at)
    case Ok(sector) =>
      match ParseMbrSector(sector)
      case Err(code, at) => Err(code, at)
      case Ok(entries) =>
        var next := NextLbaOf(extendedStartLba, entries[1]);
        match LogicalOf(device, lba, entries[0])
        case Err(code, at) => Err(code, at)
        case Ok(partition) => Ok(Link(partition, next))
  }

  // ---- What a link is ----

  // Four bytes of a sector, the least significant first.
  ghost function FieldOf(sector: seq<byte>, at: nat): int
    requires at + 4 <= |sector|
  {
    var b0: int, b1: int, b2: int, b3: int := sector[at], sector[at + 1], sector[at + 2], sector[at + 3];
    b0 + 0x100 * b1 + 0x1_0000 * b2 + 0x100_0000 * b3
  }

  lemma FieldIsRead(sector: seq<byte>, at: nat)
    requires at + 4 <= |sector|
    ensures ReadLe32(sector, at) == FieldOf(sector, at)
  {
    FourBytes(sector[at..at + 4]);
    hide FromLittleEndian;
  }

  // The sector at an address, whole and readable, with a table in it.
  ghost predicate HoldsTable(device: Device, lba: nat, sector: seq<byte>) {
    var at := lba * device.sectorSize;
    && device.sectorSize > 0 && at + device.sectorSize <= |device.bytes| && at + 512 <= |device.bytes|
    && (forall i :: at <= i < at + 512 ==> i !in device.faults)
    && sector == device.bytes[at..at + 512] && sector[510] == 0x55 && sector[511] == 0xAA
    && forall i :: 0 <= i < 4 ==> SlotIsValid(sector, i)
  }

  // Its first slot holds a partition, counted from the sector itself, unless the
  // slot is unused or names a container.
  ghost predicate HoldsPartition(sector: seq<byte>, lba: nat, sectorSize: nat, partition: Option<Partition>)
    requires |sector| == 512
  {
    if sector[0x1C2] == 0x00 || sector[0x1C2] == 0x05 || sector[0x1C2] == 0x0F || sector[0x1C2] == 0x85
    then partition.None?
    else
      && partition.Some?
      && partition.value.startBytes == (lba + FieldOf(sector, 0x1C6)) * sectorSize
      && partition.value.lengthBytes == FieldOf(sector, 0x1CA) * sectorSize
      && partition.value.typeCode == sector[0x1C2] && partition.value.logical
  }

  // Its second slot names the next link, counted from where the chain began.
  ghost predicate HoldsNext(sector: seq<byte>, extendedStartLba: nat, nextLba: nat)
    requires |sector| == 512
  {
    if sector[0x1D2] == 0x05 || sector[0x1D2] == 0x0F || sector[0x1D2] == 0x85
    then nextLba == extendedStartLba + FieldOf(sector, 0x1D6)
    else nextLba == 0
  }

  ghost predicate HoldsLink(device: Device, extendedStartLba: u32, lba: u64, link: Link) {
    exists sector: seq<byte> ::
      && HoldsTable(device, lba, sector)
      && HoldsPartition(sector, lba, device.sectorSize, link.partition)
      && HoldsNext(sector, extendedStartLba, link.nextLba)
  }

  lemma SectorsAreWhole(lba: nat, size: nat, sectorSize: nat)
    requires sectorSize > 0
    ensures lba < size / sectorSize <==> lba * sectorSize + sectorSize <= size
  {
    var count := size / sectorSize;
    assert size == count * sectorSize + size % sectorSize;
    assert lba * sectorSize + sectorSize == (lba + 1) * sectorSize;
    if lba < count {
      ProductGrows(lba + 1, count, sectorSize);
    } else {
      ProductGrows(count + 1, lba + 1, sectorSize);
      assert (count + 1) * sectorSize == count * sectorSize + sectorSize;
    }
  }

  lemma TableIsRead(device: Device, lba: nat, sector: seq<byte>)
    requires Addressable(device)
    ensures ReadTableSector(device, lba) == Ok(sector) && ParseMbrSector(sector).Ok?
            <==> HoldsTable(device, lba, sector)
  {
    hide ParseMbrSector, SlotIsValid, ReadAt;
    if device.sectorSize > 0 {
      SectorsAreWhole(lba, |device.bytes|, device.sectorSize);
      var at := lba * device.sectorSize;
      if lba < |device.bytes| / device.sectorSize {
        ReadYields(device, at, MBR_SECTOR_BYTES, sector);
        if |sector| == MBR_SECTOR_BYTES {
          TableIsExact(sector);
          assert sector[..512] == sector;
          if ReadAt(device, at, MBR_SECTOR_BYTES) == Ok(sector) {
            forall i | at <= i < at + 512
              ensures i !in device.faults
            {
              assert sector[i - at] == device.bytes[at + (i - at)];
            }
            assert sector == device.bytes[at..at + 512];
          }
        }
      }
    }
  }

  lemma PartitionIsRead(device: Device, lba: u64, sector: seq<byte>, entry: Entry, partition: Option<Partition>)
    requires |sector| == 512 && lba + U32_LIMIT < U64_LIMIT
    requires EntryAt(sector, TABLE_OFFSET) == Ok(entry)
    ensures LogicalOf(device, lba, entry) == Ok(partition)
            <==> HoldsPartition(sector, lba, device.sectorSize, partition)
  {
    FieldIsRead(sector, 0x1C6);
    FieldIsRead(sector, 0x1CA);
    hide FieldOf, ReadLe32;
  }

  lemma NextIsRead(sector: seq<byte>, extendedStartLba: u32, entry: Entry, nextLba: u64)
    requires |sector| == 512
    requires EntryAt(sector, TABLE_OFFSET + SLOT_BYTES) == Ok(entry)
    ensures NextLbaOf(extendedStartLba, entry) == nextLba <==> HoldsNext(sector, extendedStartLba, nextLba)
  {
    FieldIsRead(sector, 0x1D6);
    hide FieldOf, ReadLe32;
  }

  // A link is read exactly when the device holds it.
  lemma LinkIsRead(device: Device, extendedStartLba: u32, lba: u64, link: Link)
    requires Addressable(device) && Reachable(lba)
    ensures LinkAt(device, extendedStartLba, lba) == Ok(link) <==> HoldsLink(device, extendedStartLba, lba, link)
  {
    hide ReadTableSector, ParseMbrSector, LogicalOf, NextLbaOf, HoldsPartition, HoldsNext, EntryAt, SlotIsValid;
    var read := ReadTableSector(device, lba);
    if read.Ok? {
      TableIsRead(device, lba, read.value);
      if ParseMbrSector(read.value).Ok? {
        TableIsExact(read.value);
        assert read.value[..512] == read.value;
        var entries := ParseMbrSector(read.value).value;
        PartitionIsRead(device, lba, read.value, entries[0], link.partition);
        NextIsRead(read.value, extendedStartLba, entries[1], link.nextLba);
      }
    }
    if HoldsLink(device, extendedStartLba, lba, link) {
      var sector :| && HoldsTable(device, lba, sector)
                    && HoldsPartition(sector, lba, device.sectorSize, link.partition)
                    && HoldsNext(sector, extendedStartLba, link.nextLba);
      TableIsRead(device, lba, sector);
    }
  }

  // The chain as a reader of links: what is at an address, if a link can be read
  // there.
  type Links = u64 -> Option<Link>

  function LinksOf(device: Device, extendedStartLba: u32): Links
    requires Addressable(device)
  {
    (lba: u64) =>
      if !Reachable(lba) then None
      else
        match LinkAt(device, extendedStartLba, lba)
        case Err(_, _) => None
        case Ok(link) => Some(link)
  }

  ghost predicate WithinSectors(links: Links, sectors: nat) {
    forall lba: u64 :: links(lba).Some? ==> lba < sectors
  }

  lemma LinksLieOnTheDevice(device: Device, extendedStartLba: u32)
    requires Addressable(device)
    ensures WithinSectors(LinksOf(device, extendedStartLba), SectorCount(device))
  {
    hide SectorCount, LinkAt;
    var links := LinksOf(device, extendedStartLba);
    forall lba: u64 | links(lba).Some?
      ensures lba < SectorCount(device)
    {
      assert LinkAt(device, extendedStartLba, lba).Ok?;
    }
  }

  // ---- The chain ----

  // Where the chain stands after `steps` links, while there is a link to follow.
  function LbaAfter(links: Links, start: u64, steps: nat): Option<u64> {
    if steps == 0 then Some(start)
    else
      match LbaAfter(links, start, steps - 1)
      case None => None
      case Some(lba) =>
        match links(lba)
        case None => None
        case Some(link) => Some(link.nextLba)
  }

  // Link `step` of the chain, if the chain gets there and it can be read.
  function LinkOfStep(links: Links, start: u64, step: nat): Option<Link> {
    match LbaAfter(links, start, step)
    case None => None
    case Some(lba) => links(lba)
  }

  // The partition a link holds, if any.
  function HeldBy(link: Link): seq<Partition> {
    if link.partition.Some? then [link.partition.value] else []
  }

  // The partitions of the first `steps` links, in chain order.
  function PartitionsOf(links: Links, start: u64, steps: nat): seq<Partition> {
    if steps == 0 then []
    else
      var link := LinkOfStep(links, start, steps - 1);
      PartitionsOf(links, start, steps - 1) + if link.Some? then HeldBy(link.value) else []
  }

  // The chain returns, at `step`, to an address it has been at.
  ghost predicate Repeats(links: Links, start: u64, step: nat) {
    exists earlier: nat :: earlier < step && LbaAfter(links, start, earlier) == LbaAfter(links, start, step)
  }

  // Link `step` can be read, at an address neither zero nor seen before.
  ghost predicate Onward(links: Links, start: u64, step: nat) {
    && LinkOfStep(links, start, step).Some?
    && LbaAfter(links, start, step) != Some(0)
    && !Repeats(links, start, step)
  }

  // Link `step` is followed: there is one, and fewer partitions than the cap were
  // found before it.
  ghost predicate Follows(links: Links, start: u64, step: nat) {
    Onward(links, start, step) && |PartitionsOf(links, start, step)| < 128
  }

  // The walk ends after `steps` links: every one of them is followed, and the
  // next is not.
  ghost predicate EndsAfter(links: Links, start: u64, steps: nat) {
    (forall step :: 0 <= step < steps ==> Follows(links, start, step)) && !Follows(links, start, steps)
  }

  lemma EndIsUnique(links: Links, start: u64, a: nat, b: nat)
    requires EndsAfter(links, start, a) && EndsAfter(links, start, b)
    ensures a == b
  {
    hide Follows;
  }

  // Every link so far was followed, and the walk holds what the chain does.
  ghost predicate Walked(links: Links, start: u64, steps: nat, lba: u64, found: seq<Partition>, seen: seq<u64>) {
    && LbaAfter(links, start, steps) == Some(lba)
    && found == PartitionsOf(links, start, steps)
    && |seen| == steps
    && forall k :: 0 <= k < steps ==> Follows(links, start, k) && LbaAfter(links, start, k) == Some(seen[k])
  }

  lemma NotSeenIsNoRepeat(links: Links, start: u64, steps: nat, lba: u64, found: seq<Partition>, seen: seq<u64>)
    requires Walked(links, start, steps, lba, found, seen)
    ensures Repeats(links, start, steps) <==> lba in seen
  {
    hide LbaAfter, Follows, PartitionsOf;
    if lba in seen {
      var k :| 0 <= k < |seen| && seen[k] == lba;
      assert LbaAfter(links, start, k) == LbaAfter(links, start, steps);
    }
  }

  // What one more step comes to: a link folded in, or the end of the chain.
  lemma WalkedOn(links: Links, start: u64, steps: nat, lba: u64, found: seq<Partition>, seen: seq<u64>)
    requires Walked(links, start, steps, lba, found, seen)
    requires lba != 0 && |found| < MAX_LOGICAL_PARTITIONS && lba !in seen
    ensures links(lba).Some? <==> Follows(links, start, steps)
    ensures links(lba).Some? ==>
              Walked(links, start, steps + 1, links(lba).value.nextLba, found + HeldBy(links(lba).value), seen + [lba])
  {
    NotSeenIsNoRepeat(links, start, steps, lba, found, seen);
    LinkIsFolded(links, start, steps, lba);
    FollowsIs(links, start, steps);
    hide Repeats, LbaAfter, PartitionsOf, LinkOfStep, Follows, HeldBy;
  }

  lemma LinkIsFolded(links: Links, start: u64, steps: nat, lba: u64)
    requires LbaAfter(links, start, steps) == Some(lba)
    ensures LinkOfStep(links, start, steps) == links(lba)
    ensures links(lba).Some? ==>
              && LbaAfter(links, start, steps + 1) == Some(links(lba).value.nextLba)
              && PartitionsOf(links, start, steps + 1) == PartitionsOf(links, start, steps) + HeldBy(links(lba).value)
  {
  }

  lemma FollowsIs(links: Links, start: u64, step: nat)
    ensures Follows(links, start, step) <==>
              && LinkOfStep(links, start, step).Some?
              && LbaAfter(links, start, step) != Some(0)
              && !Repeats(links, start, step)
              && |PartitionsOf(links, start, step)| < MAX_LOGICAL_PARTITIONS
  {
    hide Repeats, LbaAfter, PartitionsOf, LinkOfStep;
  }

  lemma FoundIsWalked(links: Links, start: u64, steps: nat, lba: u64, found: seq<Partition>, seen: seq<u64>)
    requires Walked(links, start, steps, lba, found, seen)
    ensures found == PartitionsOf(links, start, steps) && |seen| == steps
    ensures forall k :: 0 <= k < steps ==> Follows(links, start, k)
  {
    hide Follows, LbaAfter, PartitionsOf;
  }

  lemma StoppedIsEnd(links: Links, start: u64, steps: nat, lba: u64, found: seq<Partition>, seen: seq<u64>)
    requires Walked(links, start, steps, lba, found, seen)
    requires lba == 0 || |found| >= MAX_LOGICAL_PARTITIONS || lba in seen
    ensures EndsAfter(links, start, steps)
  {
    NotSeenIsNoRepeat(links, start, steps, lba, found, seen);
    FollowsIs(links, start, steps);
    hide Repeats, LbaAfter, PartitionsOf, LinkOfStep, Follows;
  }

  lemma FollowedIsNew(links: Links, start: u64, earlier: nat, step: nat)
    requires Follows(links, start, step) && earlier < step
    ensures LbaAfter(links, start, earlier) != LbaAfter(links, start, step)
  {
    hide LbaAfter, PartitionsOf, LinkOfStep;
  }

  // Addresses are never seen twice, so there are no more of them than sectors.
  lemma SeenFits(
      links: Links, start: u64, steps: nat, lba: u64, found: seq<Partition>, seen: seq<u64>, sectors: nat)
    requires Walked(links, start, steps, lba, found, seen) && WithinSectors(links, sectors)
    ensures Distinct(seen) && steps <= sectors
  {
    hide LbaAfter, PartitionsOf, Follows, WithinSectors;
    forall i, j | 0 <= i < j < |seen|
      ensures seen[i] != seen[j]
    {
      FollowedIsNew(links, start, i, j);
    }
    forall i | 0 <= i < |seen|
      ensures seen[i] < sectors
    {
      FollowedIsReadable(links, start, i, sectors);
    }
    DistinctFit(seen, 0, sectors);
  }

  lemma FollowedIsReadable(links: Links, start: u64, step: nat, sectors: nat)
    requires Follows(links, start, step) && WithinSectors(links, sectors)
    ensures LbaAfter(links, start, step).Some? && LbaAfter(links, start, step).value < sectors
  {
    hide LbaAfter, Repeats, PartitionsOf;
  }

  // ---- As it walks ----

  class ChainWalk {
    const extendedStartLba: u32
    var ebrLba: u64
    var found: seq<Partition>
    var seen: seq<u64>
    // How many links were folded in.
    ghost var steps: nat

    ghost predicate Valid(device: Device)
      requires Addressable(device)
      reads this
    {
      && Reachable(ebrLba)
      && Walked(LinksOf(device, extendedStartLba), extendedStartLba, steps, ebrLba, found, seen)
    }

    constructor (extendedStartLba: u32)
      ensures forall device: Device :: Addressable(device) ==> Valid(device)
      ensures this.extendedStartLba == extendedStartLba && steps == 0
    {
      this.extendedStartLba := extendedStartLba;
      ebrLba := extendedStartLba;
      found, seen, steps := [], [], 0;
    }

    predicate CanStep()
      reads this
    {
      ebrLba != 0 && |found| < MAX_LOGICAL_PARTITIONS && ebrLba !in seen
    }

    // One link read and folded in; false ends the chain.
    method Step(device: Device) returns (more: bool)
      requires Addressable(device) && Valid(device) && CanStep()
      modifies this
      ensures more <==> Follows(LinksOf(device, extendedStartLba), extendedStartLba, old(steps))
      ensures more ==> Valid(device) && steps == old(steps) + 1
      ensures !more ==> steps == old(steps) && found == old(found)
      ensures seen == old(seen) + [old(ebrLba)]
    {
      hide Walked, LinkAt, Follows;
      WalkedOn(LinksOf(device, extendedStartLba), extendedStartLba, steps, ebrLba, found, seen);
      seen := seen + [ebrLba];
      var link := LinkAt(device, extendedStartLba, ebrLba);
      if link.Err? {
        return false;
      }
      ghost var grown := found + HeldBy(link.value);
      if link.value.partition.Some? {
        found := found + [link.value.partition.value];
      }
      assert found == grown;
      ebrLba := link.value.nextLba;
      steps := steps + 1;
      more := true;
    }

    // Walks the chain to its end: each address at most once, so no longer than
    // the device has sectors.
    method Collect(device: Device) returns (partitions: seq<Partition>)
      requires Addressable(device) && Valid(device) && steps == 0
      modifies this
      ensures EndsAfter(LinksOf(device, extendedStartLba), extendedStartLba, steps)
      ensures partitions == PartitionsOf(LinksOf(device, extendedStartLba), extendedStartLba, steps)
      ensures Distinct(seen) && steps <= |seen| <= steps + 1 && steps <= SectorCount(device)
    {
      hide Walked, Follows, PartitionsOf, SectorCount, LinksOf, WithinSectors, Reachable;
      ghost var links, sectors := LinksOf(device, extendedStartLba), SectorCount(device);
      LinksLieOnTheDevice(device, extendedStartLba);
      var more := true;
      FoundIsWalked(links, extendedStartLba, steps, ebrLba, found, seen);
      while more && CanStep()
        invariant more ==> Valid(device)
        invariant !more ==> EndsAfter(links, extendedStartLba, steps) && Distinct(seen) && steps <= sectors
        invariant steps <= |seen| <= steps + 1
        invariant found == PartitionsOf(links, extendedStartLba, steps)
        decreases more, sectors - steps
      {
        SeenFits(links, extendedStartLba, steps, ebrLba, found, seen, sectors);
        FoundIsWalked(links, extendedStartLba, steps, ebrLba, found, seen);
        more := Step(device);
        if more {
          SeenFits(links, extendedStartLba, steps, ebrLba, found, seen, sectors);
          FoundIsWalked(links, extendedStartLba, steps, ebrLba, found, seen);
        }
      }
      if more {
        SeenFits(links, extendedStartLba, steps, ebrLba, found, seen, sectors);
        StoppedIsEnd(links, extendedStartLba, steps, ebrLba, found, seen);
      }
      partitions := found;
    }
  }

  method LogicalPartitions(device: Device, extendedStartLba: u32) returns (partitions: seq<Partition>)
    requires Addressable(device)
    ensures exists steps: nat ::
              && (if device.sectorSize == 0 then steps == 0 else steps <= |device.bytes| / device.sectorSize)
              && EndsAfter(LinksOf(device, extendedStartLba), extendedStartLba, steps)
              && partitions == PartitionsOf(LinksOf(device, extendedStartLba), extendedStartLba, steps)
  {
    hide LbaAfter, Follows, PartitionsOf, LinksOf;
    var walk := new ChainWalk(extendedStartLba);
    partitions := walk.Collect(device);
  }
}
