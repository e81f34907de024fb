// The cache itself: a list of blocks, the most recently used in front, and a map
// from block numbers into it. A block is an object, so that the map's entry stays
// good wherever the list moves the block, as a list iterator does.
//
// `Linked` keeps the two in step and every block true to the device; `Valid` adds
// that the list is the most recently served blocks in order of last use. Reads
// are tied to `BlockReads.CachedRead`, which knows nothing of the cache.
module BlockCache {
  import opened Bytes
  import opened Outcomes
  import opened Devices
  import opened BlockReads

  // One held block, at its own place in the list whichever way the list moves.
  class CachedBlock {
    const index: nat
    const bytes: seq<byte>

    constructor (index: nat, bytes: seq<byte>)
      ensures this.index == index && this.bytes == bytes
    {
      this.index := index;
      this.bytes := bytes;
    }
  }

  function Order(blocks: seq<CachedBlock>): (order: seq<nat>)
    ensures |order| == |blocks|
    ensures forall i :: 0 <= i < |blocks| ==> order[i] == blocks[i].index
  {
    if blocks == [] then [] else [blocks[0].index] + Order(blocks[1..])
  }

  // The list with one block taken out of its place.
  function Unlinked(blocks: seq<CachedBlock>, block: CachedBlock): (rest: seq<CachedBlock>)
    ensures forall b :: b in rest ==> b in blocks
    ensures forall b :: b in blocks && b != block ==> b in rest
    ensures |rest| <= |blocks| && (block in blocks ==> |rest| == |blocks| - 1)
  {
    if blocks == [] then []
    else if blocks[0] == block then blocks[1..]
    else [blocks[0]] + Unlinked(blocks[1..], block)
  }

  lemma {:induction false} UnlinkedOrder(blocks: seq<CachedBlock>, block: CachedBlock)
    requires NoRepeat(Order(blocks)) && block in blocks
    ensures Order(Unlinked(blocks, block)) == Without(Order(blocks), block.index)
  {
    assert Order(blocks)[1..] == Order(blocks[1..]);
    if blocks[0] != block {
      assert block in blocks[1..];
      assert block.index in Order(blocks[1..]);
      UnlinkedOrder(blocks[1..], block);
      assert Unlinked(blocks, block)[1..] == Unlinked(blocks[1..], block);
    }
  }

  // The block is what the device has at its number.
  predicate TrueToDevice(device: Device, unit: u64, block: CachedBlock) {
    Start(block.index, unit) < U64_LIMIT && BlockAt(device, unit, block.index) == Ok(block.bytes)
  }

  // The list and the map hold the same blocks, one for each number, and each is
  // what the device has there.
  ghost predicate LinkedUp(device: Device, unit: u64, blocks: seq<CachedBlock>, held: map<nat, CachedBlock>) {
    && NoRepeat(Order(blocks))
    && (forall b :: b in blocks ==> b.index in held && held[b.index] == b && TrueToDevice(device, unit, b))
    && (forall k :: k in held ==> held[k] in blocks && held[k].index == k)
  }

  lemma PushKeepsLinks(device: Device, unit: u64, blocks: seq<CachedBlock>, held: map<nat, CachedBlock>, block: CachedBlock)
    requires LinkedUp(device, unit, blocks, held) && block.index !in held && TrueToDevice(device, unit, block)
    ensures LinkedUp(device, unit, [block] + blocks, held[block.index := block])
    ensures Order([block] + blocks) == [block.index] + Order(blocks)
  {
    hide TrueToDevice;
    assert ([block] + blocks)[1..] == blocks;
    assert block.index !in Order(blocks);
    assert ([block.index] + Order(blocks))[1..] == Order(blocks);
  }

  lemma PopKeepsLinks(device: Device, unit: u64, blocks: seq<CachedBlock>, held: map<nat, CachedBlock>)
    requires LinkedUp(device, unit, blocks, held) && blocks != []
    ensures LinkedUp(device, unit, blocks[..|blocks| - 1], held - {blocks[|blocks| - 1].index})
  {
    hide TrueToDevice, NoRepeat;
    var last := |blocks| - 1;
    assert Order(blocks[..last]) == Order(blocks)[..last];
    FrontHasNoRepeat(Order(blocks), last);
    assert forall b :: b in blocks && b != blocks[last] ==> b in blocks[..last];
    assert forall b :: b in blocks[..last] ==> b.index in Order(blocks)[..last];
  }

  lemma UnlinkKeepsLinks(device: Device, unit: u64, blocks: seq<CachedBlock>, held: map<nat, CachedBlock>, block: CachedBlock)
    requires LinkedUp(device, unit, blocks, held) && block in blocks
    ensures LinkedUp(device, unit, Unlinked(blocks, block), held - {block.index})
    ensures Order(Unlinked(blocks, block)) == Without(Order(blocks), block.index)
  {
    hide TrueToDevice, NoRepeat, Unlinked, Without;
    UnlinkedOrder(blocks, block);
    WithoutLeavesNone(Order(blocks), block.index);
    var rest := Unlinked(blocks, block);
    forall b | b in rest
      ensures b.index != block.index
    {
      assert b.index in Order(rest);
    }
    forall k | k in held - {block.index}
      ensures held[k] in rest
    {
      assert held[k] in blocks && held[k] != block;
    }
    hide Order;
  }

  class CachingDevice {
    const source: Device
    const blockBytes: u64
    const blockCount: nat
    var blocks: seq<CachedBlock>
    var held: map<nat, CachedBlock>
    // Every block served so far, oldest first.
    ghost var uses: seq<nat>

    ghost predicate Linked()
      reads this
    {
      blockBytes > 0 && blockCount > 0 && Addressable(source) && LinkedUp(source, blockBytes, blocks, held)
    }

    // Of the blocks served so far, the cache holds the most recent `blockCount`,
    // the newest in front.
    ghost predicate Valid()
      reads this
    {
      && Linked()
      && |blocks| <= blockCount
      && Order(blocks) == Front(Recent(uses), blockCount)
    }

    constructor (source: Device, shapeBlockBytes: nat, shapeBlockCount: nat)
      requires Addressable(source)
      requires BlockBytesFor(shapeBlockBytes, source.sectorSize) < U64_LIMIT
      ensures Valid() && blocks == [] && uses == []
      ensures this.source == source
      ensures blockBytes == BlockBytesFor(shapeBlockBytes, source.sectorSize) && blockCount == Max(shapeBlockCount, 1)
    {
      this.source := source;
      blockBytes := BlockBytesFor(shapeBlockBytes, source.sectorSize);
      blockCount := Max(shapeBlockCount, 1);
      blocks, held, uses := [], map[], [];
    }

    method EvictIfFull()
      requires Linked() && |blocks| <= blockCount
      modifies `blocks, `held
      ensures Linked() && |blocks| < blockCount
      ensures blocks == old(blocks)[..Min(|old(blocks)|, blockCount - 1)]
      ensures forall k :: k in held ==> k in old(held)
    {
      hide LinkedUp;
      if |blocks| < blockCount {
        assert blocks[..|blocks|] == blocks;
        return;
      }
      PopKeepsLinks(source, blockBytes, blocks, held);
      var last := |blocks| - 1;
      held := held - {blocks[last].index};
      blocks := blocks[..last];
    }

    // What serving block `index` comes to, from the list or from the device.
    twostate predicate Serves(index: nat, new block: Result<CachedBlock>)
      requires old(Linked()) && Start(index, blockBytes) < U64_LIMIT
      reads this
    {
      match BlockAt(source, blockBytes, index)
      case Ok(bytes) => block.Ok? && block.value.bytes == bytes && uses == old(uses) + [index]
      case Err(code, at) =>
        block == Err(code, at) && blocks == old(blocks) && held == old(held) && uses == old(uses)
    }

    method LoadBlock(index: nat) returns (block: Result<CachedBlock>)
      requires Valid() && index !in held && Start(index, blockBytes) < U64_LIMIT
      modifies this
      ensures Valid() && Serves(index, block)
    {
      hide Recent, Without, Start, ReadAt, LinkedUp, Order;
      var bytes := ReadAt(source, Start(index, blockBytes), blockBytes);
      if bytes.Err? {
        return Err(bytes.code, bytes.offset);
      }
      ListedIsHeld(source, blockBytes, blocks, held, index);
      EvictIfFull();
      ghost var order := Order(old(blocks));
      OrderOfFront(old(blocks), Min(|old(blocks)|, blockCount - 1));
      var loaded := new CachedBlock(index, bytes.value);
      PushKeepsLinks(source, blockBytes, blocks, held, loaded);
      blocks := [loaded] + blocks;
      held := held[index := loaded];
      uses := uses + [index];
      ServingIsTouching(old(uses), index, blockCount);
      block := Ok(loaded);
    }

    method FindBlock(index: nat) returns (block: Result<CachedBlock>)
      requires Valid() && Start(index, blockBytes) < U64_LIMIT
      modifies this
      ensures Valid() && Serves(index, block)
    {
      hide Recent, Without, Start, BlockAt, LinkedUp, Order, Unlinked;
      if index !in held {
        block := LoadBlock(index);
        return;
      }
      HeldIsListed(source, blockBytes, blocks, held, index);
      var found := held[index];
      UnlinkKeepsLinks(source, blockBytes, blocks, held, found);
      PushKeepsLinks(source, blockBytes, Unlinked(blocks, found), held - {index}, found);
      assert (held - {index})[index := found] == held[index := found];
      blocks := [found] + Unlinked(blocks, found);
      held := held[index := found];
      uses := uses + [index];
      ServingIsTouching(old(uses), index, blockCount);
      block := Ok(found);
    }

    // As much of the buffer from `from` to `limit` as the block holding `offset`
    // can supply.
    method CopyOneBlock(offset: nat, buffer: array<byte>, from: nat, limit: nat) returns (step: Result<nat>)
      requires Valid() && from <= limit <= buffer.Length && offset < U64_LIMIT
      modifies this, buffer
      ensures Valid()
      ensures Start(Index(offset, blockBytes), blockBytes) <= offset
      ensures match BlockAt(source, blockBytes, Index(offset, blockBytes))
              case Err(code, at) =>
                step == Err(code, at) && uses == old(uses) && buffer[..] == old(buffer[..])
              case Ok(bytes) =>
                var within := Within(offset, blockBytes);
                var supplied := Supplied(bytes, within, limit - from);
                && step == Ok(supplied) && uses == old(uses) + [Index(offset, blockBytes)]
                && buffer[..] == old(buffer[..from]) + (if supplied == 0 then [] else bytes[within..within + supplied])
                                 + old(buffer[from + supplied..])
    {
      hide Recent, LinkedUp, Order, Start, Index, Within, BlockAt;
      var within := Within(offset, blockBytes);
      BlockHolds(offset, blockBytes);
      var block := FindBlock(Index(offset, blockBytes));
      if block.Err? {
        return Err(block.code, block.offset);
      }
      var bytes := block.value.bytes;
      if within >= |bytes| {
        assert buffer[..] == buffer[..from] + [] + buffer[from + 0..];
        return Ok(0);
      }
      var count := Min(limit - from, |bytes| - within);
      forall k | 0 <= k < count {
        buffer[from + k] := bytes[within + k];
      }
      step := Ok(count);
    }

    method CopyThroughCache(offset: u64, buffer: array<byte>, limit: nat) returns (done: Result<nat>)
      requires Valid() && limit <= buffer.Length && offset + limit < U64_LIMIT
      modifies this, buffer
      ensures Valid() && uses == old(uses) + Served(source, blockBytes, offset, limit)
      ensures match Copied(source, blockBytes, offset, limit)
              case Err(code, at) => done == Err(code, at)
              case Ok(bytes) =>
                done == Ok(|bytes|) && |bytes| <= limit && buffer[..] == bytes + old(buffer[..])[|bytes|..]
    {
      hide Recent, LinkedUp, Order, Start, Index, Within, BlockAt, Supplied, Joined, Served, Copied, Front;
      var copied: nat, more := 0, true;
      ghost var before := buffer[..];
      ghost var served := Served(source, blockBytes, offset, limit);
      NothingJoined(source, blockBytes, offset, limit);
      while more && copied < limit
        invariant Valid() && copied <= limit
        invariant uses + (if more then Served(source, blockBytes, offset + copied, limit - copied) else [])
               == old(uses) + served
        invariant buffer[copied..] == before[copied..]
        invariant Joined(source, blockBytes, offset, limit, buffer[..copied], more)
        decreases limit - copied, more
      {
        var at := offset + copied;
        ghost var soFar := buffer[..copied];
        JoinedStep(source, blockBytes, offset, limit, soFar);
        ServedStep(source, blockBytes, at, limit - copied);
        var step := CopyOneBlock(at, buffer, copied, limit);
        if step.Err? {
          return Err(step.code, step.offset);
        }
        copied, more := copied + step.value, step.value != 0;
        assert buffer[copied..] == before[copied..];
        assert buffer[..copied] == soFar + buffer[|soFar|..copied];
      }
      JoinedWhole(source, blockBytes, offset, limit, buffer[..copied], more);
      if more {
        NothingServed(source, blockBytes, offset + limit);
      }
      assert buffer[..] == buffer[..copied] + before[copied..];
      done := Ok(copied);
    }

    // A read through the cache: the device's own bytes and count, or its own
    // refusal, in every state of the cache that `Valid` allows.
    method Read(offset: u64, buffer: array<byte>) returns (got: Result<nat>)
      requires Valid() && buffer.Length < U64_LIMIT
      modifies this, buffer
      ensures Valid()
      ensures match CachedRead(source, blockBytes, offset, buffer.Length)
              case Err(code, at) => got == Err(code, at)
              case Ok(bytes) =>
                got == Ok(|bytes|) && |bytes| <= buffer.Length && buffer[..] == bytes + old(buffer[..])[|bytes|..]
      ensures uses == old(uses) + match ClampReadRange(offset, buffer.Length, |source.bytes|)
                                  case Err(_, _) => []
                                  case Ok(count) => Served(source, blockBytes, offset, count)
    {
      hide Recent, LinkedUp, Order, Copied, Served, Front;
      var want := ClampReadRange(offset, buffer.Length, |source.bytes|);
      if want.Err? {
        return Err(want.code, want.offset);
      }
      got := CopyThroughCache(offset, buffer, want.value);
    }
  }

  // What has been copied so far, and how it goes on.
  ghost predicate Joined(device: Device, unit: u64, offset: u64, limit: nat, soFar: seq<byte>, more: bool)
    requires unit > 0 && offset + limit < U64_LIMIT && |soFar| <= limit
  {
    var whole := Copied(device, unit, offset, limit);
    if !more then whole == Ok(soFar)
    else
      match Copied(device, unit, offset + |soFar|, limit - |soFar|)
      case Err(code, at) => whole == Err(code, at)
      case Ok(rest) => whole == Ok(soFar + rest)
  }

  lemma NothingJoined(device: Device, unit: u64, offset: u64, limit: nat)
    requires unit > 0 && offset + limit < U64_LIMIT
    ensures Joined(device, unit, offset, limit, [], true)
  {
    if Copied(device, unit, offset, limit).Ok? {
      assert [] + Copied(device, unit, offset, limit).value == Copied(device, unit, offset, limit).value;
    }
  }

  lemma JoinedStep(device: Device, unit: u64, offset: u64, limit: nat, soFar: seq<byte>)
    requires unit > 0 && offset + limit < U64_LIMIT && |soFar| < limit
    requires Joined(device, unit, offset, limit, soFar, true)
    ensures var at, left := offset + |soFar|, limit - |soFar|;
            && Start(Index(at, unit), unit) <= at
            && match BlockAt(device, unit, Index(at, unit))
               case Err(code, where) => Copied(device, unit, offset, limit) == Err(code, where)
               case Ok(block) =>
                 var within := Within(at, unit);
                 var supplied := Supplied(block, within, left);
                 Joined(device, unit, offset, limit,
                        soFar + (if supplied == 0 then [] else block[within..within + supplied]), supplied != 0)
  {
    hide Start, Index, Within, Supplied, BlockAt, Copied, Joined;
    var at, left := offset + |soFar|, limit - |soFar|;
    CopiedStep(device, unit, at, left);
    var block, within := BlockAt(device, unit, Index(at, unit)), Within(at, unit);
    if block.Err? {
      JoinedError(device, unit, offset, limit, soFar);
    } else {
      var supplied := Supplied(block.value, within, left);
      if supplied == 0 {
        JoinedEnd(device, unit, offset, limit, soFar);
        assert soFar + [] == soFar;
      } else {
        JoinedOn(device, unit, offset, limit, soFar, block.value[within..within + supplied]);
      }
    }
  }

  lemma JoinedError(device: Device, unit: u64, offset: u64, limit: nat, soFar: seq<byte>)
    requires unit > 0 && offset + limit < U64_LIMIT && |soFar| < limit
    requires Joined(device, unit, offset, limit, soFar, true)
    requires Copied(device, unit, offset + |soFar|, limit - |soFar|).Err?
    ensures Copied(device, unit, offset, limit) == Copied(device, unit, offset + |soFar|, limit - |soFar|)
  {
    hide Copied;
  }

  lemma JoinedEnd(device: Device, unit: u64, offset: u64, limit: nat, soFar: seq<byte>)
    requires unit > 0 && offset + limit < U64_LIMIT && |soFar| < limit
    requires Joined(device, unit, offset, limit, soFar, true)
    requires Copied(device, unit, offset + |soFar|, limit - |soFar|) == Ok([])
    ensures Joined(device, unit, offset, limit, soFar, false)
  {
    hide Copied;
    assert soFar + [] == soFar;
  }

  lemma JoinedOn(device: Device, unit: u64, offset: u64, limit: nat, soFar: seq<byte>, slice: seq<byte>)
    requires unit > 0 && offset + limit < U64_LIMIT && |soFar| < limit && |soFar| + |slice| <= limit
    requires Joined(device, unit, offset, limit, soFar, true)
    requires var later := Copied(device, unit, offset + |soFar| + |slice|, limit - |soFar| - |slice|);
             Copied(device, unit, offset + |soFar|, limit - |soFar|)
             == if later.Err? then later else Ok(slice + later.value)
    ensures Joined(device, unit, offset, limit, soFar + slice, true)
  {
    hide Copied;
    var rest := Copied(device, unit, offset + |soFar| + |slice|, limit - |soFar| - |slice|);
    if rest.Ok? {
      assert soFar + (slice + rest.value) == (soFar + slice) + rest.value;
    }
  }

  lemma CopiedStep(device: Device, unit: u64, at: nat, left: nat)
    requires unit > 0 && at + left < U64_LIMIT && left > 0
    ensures Start(Index(at, unit), unit) <= at
    ensures match BlockAt(device, unit, Index(at, unit))
            case Err(code, where) => Copied(device, unit, at, left) == Err(code, where)
            case Ok(block) =>
              var within := Within(at, unit);
              var supplied := Supplied(block, within, left);
              if supplied == 0 then Copied(device, unit, at, left) == Ok([])
              else
                match Copied(device, unit, at + supplied, left - supplied)
                case Err(code, where) => Copied(device, unit, at, left) == Err(code, where)
                case Ok(rest) => Copied(device, unit, at, left) == Ok(block[within..within + supplied] + rest)
  {
    hide Start, Index, Within, Supplied, BlockAt;
    BlockHolds(at, unit);
  }

  lemma ServedStep(device: Device, unit: u64, at: nat, left: nat)
    requires unit > 0 && at + left < U64_LIMIT && left > 0
    ensures Start(Index(at, unit), unit) <= at
    ensures match BlockAt(device, unit, Index(at, unit))
            case Err(code, where) => Served(device, unit, at, left) == []
            case Ok(block) =>
              var supplied := Supplied(block, Within(at, unit), left);
              Served(device, unit, at, left)
              == [Index(at, unit)] + if supplied == 0 then [] else Served(device, unit, at + supplied, left - supplied)
  {
    hide Start, Index, Within, Supplied, BlockAt;
    BlockHolds(at, unit);
  }

  lemma NothingServed(device: Device, unit: u64, at: nat)
    requires unit > 0 && at < U64_LIMIT
    ensures Served(device, unit, at, 0) == []
  {
  }

  lemma JoinedWhole(device: Device, unit: u64, offset: u64, limit: nat, soFar: seq<byte>, more: bool)
    requires unit > 0 && offset + limit < U64_LIMIT && |soFar| <= limit && (more ==> |soFar| == limit)
    requires Joined(device, unit, offset, limit, soFar, more)
    ensures Copied(device, unit, offset, limit) == Ok(soFar)
  {
    if more {
      NothingCopied(device, unit, offset + limit);
      assert soFar + [] == soFar;
    }
  }

  lemma OrderOfFront(blocks: seq<CachedBlock>, count: nat)
    requires count <= |blocks|
    ensures Order(blocks[..count]) == Order(blocks)[..count]
  {
  }

  lemma HeldIsListed(device: Device, unit: u64, blocks: seq<CachedBlock>, held: map<nat, CachedBlock>, index: nat)
    requires LinkedUp(device, unit, blocks, held) && index in held
    ensures held[index] in blocks && held[index].index == index && index in Order(blocks)
    ensures TrueToDevice(device, unit, held[index])
  {
    var k :| 0 <= k < |blocks| && blocks[k] == held[index];
    assert Order(blocks)[k] == index;
  }

  lemma ListedIsHeld(device: Device, unit: u64, blocks: seq<CachedBlock>, held: map<nat, CachedBlock>, index: nat)
    requires LinkedUp(device, unit, blocks, held)
    ensures index in Order(blocks) ==> index in held
  {
    hide TrueToDevice, NoRepeat;
    if index in Order(blocks) {
      var k :| 0 <= k < |blocks| && Order(blocks)[k] == index;
      assert blocks[k] in blocks;
    }
  }

  lemma ServingIsTouching(uses: seq<nat>, index: nat, capacity: nat)
    requires capacity > 0
    ensures Front(Recent(uses + [index]), capacity) == Touched(Front(Recent(uses), capacity), index, capacity)
  {
    assert (uses + [index])[..|uses|] == uses;
    TouchKeepsMostRecent(Recent(uses), index, capacity);
  }
}
