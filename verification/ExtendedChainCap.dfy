// What the cap of an extended chain bounds.
module ExtendedChainCap {
  import opened Bytes
  import opened Outcomes
  import opened Devices
  import opened ExtendedChains

  // It counts partitions, so links that hold none are followed past it. When that
  // happens, exactly; and devices on which it does, with as many links as their
  // 32-bit addresses can number.

  // Link `step` is there and holds no partition.
  ghost predicate HoldsNone(links: Links, start: u64, step: nat) {
    LinkOfStep(links, start, step).Some? && LinkOfStep(links, start, step).value.partition.None?
  }

  lemma {:induction false} NoMorePartitionsThanLinks(links: Links, start: u64, steps: nat)
    ensures |PartitionsOf(links, start, steps)| <= steps
  {
    hide LinkOfStep;
    if steps == 0 {
    } else {
      NoMorePartitionsThanLinks(links, start, steps - 1);
    }
  }

  // As many partitions as links, unless some link holds none.
  lemma {:induction false} FewerPartitionsThanLinks(links: Links, start: u64, steps: nat)
    requires forall k :: 0 <= k < steps ==> Onward(links, start, k)
    ensures |PartitionsOf(links, start, steps)| < steps <==> exists k :: 0 <= k < steps && HoldsNone(links, start, k)
  {
    hide LinkOfStep, Repeats;
    if steps == 0 {
    } else {
      FewerPartitionsThanLinks(links, start, steps - 1);
      NoMorePartitionsThanLinks(links, start, steps - 1);
      assert Onward(links, start, steps - 1);
      if HoldsNone(links, start, steps - 1) {
        assert |PartitionsOf(links, start, steps)| < steps;
      } else {
        assert |PartitionsOf(links, start, steps)| == |PartitionsOf(links, start, steps - 1)| + 1;
      }
    }
  }

  // The walk follows more links than the cap if and only if the chain goes on
  // that long and some link before the cap holds no partition.
  lemma CapIsPassedExactly(links: Links, start: u64, steps: nat)
    requires EndsAfter(links, start, steps)
    ensures steps > MAX_LOGICAL_PARTITIONS
            <==> && (forall k :: 0 <= k <= MAX_LOGICAL_PARTITIONS ==> Onward(links, start, k))
                 && exists k :: 0 <= k < MAX_LOGICAL_PARTITIONS && HoldsNone(links, start, k)
  {
    hide LinkOfStep, PartitionsOf, Repeats, LbaAfter, HoldsNone;
    if steps > MAX_LOGICAL_PARTITIONS {
      assert Follows(links, start, MAX_LOGICAL_PARTITIONS);
      forall k | 0 <= k <= MAX_LOGICAL_PARTITIONS
        ensures Onward(links, start, k)
      {
        assert Follows(links, start, k);
      }
      FewerPartitionsThanLinks(links, start, MAX_LOGICAL_PARTITIONS);
    } else if forall k :: 0 <= k <= MAX_LOGICAL_PARTITIONS ==> Onward(links, start, k) {
      FewerPartitionsThanLinks(links, start, MAX_LOGICAL_PARTITIONS);
      NoMorePartitionsThanLinks(links, start, steps);
      assert !Follows(links, start, steps) && Onward(links, start, steps);
    }
  }

  // ---- A chain of empty links ----

  function Zeros(count: nat): (zeros: seq<byte>)
    ensures |zeros| == count && forall i :: 0 <= i < count ==> zeros[i] == 0
  {
    seq(count, _ => 0)
  }

  // The second slot of link `lba`: an extended container that starts `lba`
  // sectors past the head of the chain, which is at sector 1.
  function NextSlot(lba: u32): (slot: seq<byte>)
    ensures |slot| == SLOT_BYTES
  {
    [0, 0, 0, 0, 0x05, 0, 0, 0] + LittleEndian(lba, 4) + LittleEndian(1, 4)
  }

  // A table whose first slot is unused and whose second points at the next sector.
  function EmptyLink(lba: u32): (sector: seq<byte>)
    ensures |sector| == MBR_SECTOR_BYTES
  {
    Zeros(TABLE_OFFSET + SLOT_BYTES) + NextSlot(lba) + Zeros(2 * SLOT_BYTES) + [0x55, 0xAA]
  }

  // Sector 0, then a link in each of `count` sectors.
  function ChainBytes(count: u32): (data: seq<byte>)
    ensures |data| == (count + 1) * MBR_SECTOR_BYTES
  {
    if count == 0 then Zeros(MBR_SECTOR_BYTES) else ChainBytes(count - 1) + EmptyLink(count)
  }

  function ChainDevice(count: u32): (device: Device)
    ensures Addressable(device) && SectorCount(device) == count + 1
  {
    Device(ChainBytes(count), {}, MBR_SECTOR_BYTES)
  }

  lemma {:induction false} LinkLiesAt(count: u32, lba: u32)
    requires 0 < lba <= count
    ensures ChainBytes(count)[lba * MBR_SECTOR_BYTES..(lba + 1) * MBR_SECTOR_BYTES] == EmptyLink(lba)
    decreases count
  {
    hide EmptyLink;
    if lba == count {
    } else {
      LinkLiesAt(count - 1, lba);
    }
  }

  // Slot `index` begins at its place in the table.
  lemma SlotsOfEmptyLink(lba: u32)
    ensures var sector := EmptyLink(lba);
            && At(sector, TABLE_OFFSET, Zeros(SLOT_BYTES))
            && At(sector, TABLE_OFFSET + SLOT_BYTES, NextSlot(lba))
            && At(sector, TABLE_OFFSET + 2 * SLOT_BYTES, Zeros(2 * SLOT_BYTES))
            && At(sector, SIGNATURE_OFFSET, [0x55, 0xAA])
  {
    hide NextSlot;
  }

  lemma ZeroSlotIsUnused(sector: seq<byte>, at: nat)
    requires at + SLOT_BYTES <= |sector| && forall i :: at <= i < at + SLOT_BYTES ==> sector[i] == 0
    ensures EntryAt(sector, at) == Ok(Entry(UNUSED_TYPE, 0, 0))
  {
    ZeroField(sector[at + START_LBA_FIELD..at + START_LBA_FIELD + 4]);
    ZeroField(sector[at + SECTOR_COUNT_FIELD..at + SECTOR_COUNT_FIELD + 4]);
    hide FromLittleEndian;
  }

  lemma FieldIsRead(sector: seq<byte>, at: nat, value: u32)
    requires At(sector, at, LittleEndian(value, 4))
    ensures ReadLe32(sector, at) == value
  {
    CapacityOfFields();
    LittleEndianRoundTrip(value, 4);
    hide LittleEndian, FromLittleEndian;
  }

  lemma NextSlotIsRead(sector: seq<byte>, at: nat, lba: u32)
    requires lba > 0 && At(sector, at, NextSlot(lba))
    ensures EntryAt(sector, at) == Ok(Entry(0x05, lba, 1))
  {
    var head: seq<byte> := [0, 0, 0, 0, 0x05, 0, 0, 0];
    AtSplits(sector, at, head + LittleEndian(lba, 4), LittleEndian(1, 4));
    AtSplits(sector, at, head, LittleEndian(lba, 4));
    FieldIsRead(sector, at + START_LBA_FIELD, lba);
    FieldIsRead(sector, at + SECTOR_COUNT_FIELD, 1);
    AtIndex(sector, at, head, 0);
    AtIndex(sector, at, head, TYPE_FIELD);
    hide LittleEndian, ReadLe32;
  }

  lemma EmptyLinkParses(lba: u32)
    requires lba > 0
    ensures ParseMbrSector(EmptyLink(lba)).Ok?
    ensures ParseMbrSector(EmptyLink(lba)).value[0] == Entry(UNUSED_TYPE, 0, 0)
    ensures ParseMbrSector(EmptyLink(lba)).value[1] == Entry(0x05, lba, 1)
  {
    var sector := EmptyLink(lba);
    SlotsOfEmptyLink(lba);
    hide EmptyLink, NextSlot, EntryAt, SlotIsValid;
    forall i | TABLE_OFFSET <= i < TABLE_OFFSET + SLOT_BYTES
      ensures sector[i] == 0
    {
      AtIndex(sector, TABLE_OFFSET, Zeros(SLOT_BYTES), i - TABLE_OFFSET);
    }
    forall i | TABLE_OFFSET + 2 * SLOT_BYTES <= i < TABLE_OFFSET + 4 * SLOT_BYTES
      ensures sector[i] == 0
    {
      AtIndex(sector, TABLE_OFFSET + 2 * SLOT_BYTES, Zeros(2 * SLOT_BYTES), i - TABLE_OFFSET - 2 * SLOT_BYTES);
    }
    ZeroSlotIsUnused(sector, TABLE_OFFSET);
    NextSlotIsRead(sector, TABLE_OFFSET + SLOT_BYTES, lba);
    ZeroSlotIsUnused(sector, TABLE_OFFSET + 2 * SLOT_BYTES);
    ZeroSlotIsUnused(sector, TABLE_OFFSET + 3 * SLOT_BYTES);
    EachSlotIsValid(sector);
    SignatureIsRead(sector);
    hide FromLittleEndian, ParseMbrSector;
    TableIsExact(sector);
    assert sector[..MBR_SECTOR_BYTES] == sector;
  }

  lemma EachSlotIsValid(sector: seq<byte>)
    requires |sector| == MBR_SECTOR_BYTES
    requires EntryAt(sector, TABLE_OFFSET).Ok? && EntryAt(sector, TABLE_OFFSET + SLOT_BYTES).Ok?
    requires EntryAt(sector, TABLE_OFFSET + 2 * SLOT_BYTES).Ok? && EntryAt(sector, TABLE_OFFSET + 3 * SLOT_BYTES).Ok?
    ensures forall i :: 0 <= i < 4 ==> SlotIsValid(sector, i)
  {
    hide EntryAt, SlotIsValid;
    SlotIsRead(sector, 0);
    SlotIsRead(sector, 1);
    SlotIsRead(sector, 2);
    SlotIsRead(sector, 3);
  }

  lemma SignatureIsRead(sector: seq<byte>)
    requires At(sector, SIGNATURE_OFFSET, [0x55, 0xAA])
    ensures FromLittleEndian(sector[SIGNATURE_OFFSET..SIGNATURE_OFFSET + 2]) == TABLE_SIGNATURE
  {
    assert [0x55 as byte, 0xAA][1..] == [0xAA];
    assert [0xAA as byte][1..] == [];
    assert FromLittleEndian([0xAA]) == 0xAA;
  }

  // Every link of the chain is read where it lies, and points at the next sector.
  lemma EmptyLinkIsRead(count: u32, lba: u32)
    requires 0 < lba <= count
    ensures LinkAt(ChainDevice(count), 1, lba) == Ok(Link(None, 1 + lba))
  {
    hide EmptyLink, ParseMbrSector, EntriesFrom;
    var device := ChainDevice(count);
    LinkLiesAt(count, lba);
    EmptyLinkParses(lba);
    assert ReadTableSector(device, lba) == Ok(EmptyLink(lba));
  }

  lemma PastTheChainIsUnreadable(count: u32)
    ensures LinkAt(ChainDevice(count), 1, count + 1).Err?
  {
    hide ParseMbrSector, ChainBytes;
  }

  lemma {:induction false} ChainGoesOn(count: u32, steps: nat)
    requires steps <= count
    ensures LbaAfter(LinksOf(ChainDevice(count), 1), 1, steps) == Some(1 + steps)
    ensures PartitionsOf(LinksOf(ChainDevice(count), 1), 1, steps) == []
  {
    hide ChainDevice, LinkAt;
    if steps == 0 {
    } else {
      ChainGoesOn(count, steps - 1);
      EmptyLinkIsRead(count, steps);
    }
  }

  // A device of `count` links that hold no partition has every one of them
  // followed, and nothing found.
  lemma EmptyChainIsFollowed(count: u32)
    ensures var links := LinksOf(ChainDevice(count), 1);
            EndsAfter(links, 1, count) && PartitionsOf(links, 1, count) == []
  {
    hide ChainDevice, LinkAt, LbaAfter, PartitionsOf;
    var links := LinksOf(ChainDevice(count), 1);
    forall step: nat | step <= count
      ensures LbaAfter(links, 1, step) == Some(1 + step) && PartitionsOf(links, 1, step) == []
    {
      ChainGoesOn(count, step);
    }
    forall step: nat | step < count
      ensures Follows(links, 1, step)
    {
      EmptyLinkIsRead(count, 1 + step);
    }
    PastTheChainIsUnreadable(count);
  }
}
