// The read-only device every parser reads through: its bytes, those of them it
// cannot read, and the clamping every device applies to a request.
module Devices {
  import opened Bytes
  import opened Outcomes

  datatype Device = Device(bytes: seq<byte>, faults: set<nat>, sectorSize: u32)

  // A device's size is a 64-bit number.
  predicate Addressable(device: Device) {
    |device.bytes| < U64_LIMIT
  }

  function ClampReadRange(offset: u64, want: u64, size: nat): Result<nat> {
    if want > U64_MAX - offset then Err(Overflow, offset)
    else if offset >= size || want == 0 then Ok(0)
    else Ok(if want < size - offset then want else size - offset)
  }

  predicate Readable(device: Device, from: nat, to: nat) {
    forall i :: from <= i < to ==> i !in device.faults
  }

  // What one read yields: fewer bytes at the end of the device, an error when
  // the device faults inside the range.
  function ReadAt(device: Device, offset: u64, want: u64): (got: Result<seq<byte>>)
    ensures got.Ok? ==> |got.value| <= want
  {
    match ClampReadRange(offset, want, |device.bytes|)
    case Err(code, at) => Err(code, at)
    case Ok(count) =>
      if count == 0 then Ok([])
      else if Readable(device, offset, offset + count) then Ok(device.bytes[offset..offset + count])
      else Err(IoFailure, offset)
  }

  // As many bytes as asked for, or as there are.
  function CountAt(device: Device, offset: u64, want: u64): nat {
    if offset >= |device.bytes| then 0
    else if |device.bytes| - offset < want then |device.bytes| - offset
    else want
  }

  // The device's own bytes from the offset, none of which faults, in a range that
  // 64 bits name.
  ghost predicate Yields(device: Device, offset: u64, want: u64, got: seq<byte>) {
    && offset + want <= 0xFFFF_FFFF_FFFF_FFFF && |got| == CountAt(device, offset, want)
    && forall i :: offset <= i < offset + |got| ==>
         i < |device.bytes| && i !in device.faults && got[i - offset] == device.bytes[i]
  }

  lemma ReadYields(device: Device, offset: u64, want: u64, got: seq<byte>)
    ensures ReadAt(device, offset, want) == Ok(got) <==> Yields(device, offset, want, got)
  {
    if Yields(device, offset, want, got) {
      assert Readable(device, offset, offset + |got|);
      if got != [] {
        forall k | 0 <= k < |got|
          ensures got[k] == device.bytes[offset..offset + |got|][k]
        {
          assert got[offset + k - offset] == device.bytes[offset + k];
        }
        assert device.bytes[offset..offset + |got|] == got;
      }
    }
  }
}
