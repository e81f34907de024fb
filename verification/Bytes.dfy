// Bytes, fixed-width unsigned integers and the two byte orders every on-disk
// structure of the repository is written in.
module Bytes {

  type byte = b: int | 0 <= b < 0x100
  type u32 = x: int | 0 <= x < 0x1_0000_0000
  type u64 = x: int | 0 <= x < 0x1_0000_0000_0000_0000

  const U32_LIMIT := 0x1_0000_0000
  const U64_LIMIT := 0x1_0000_0000_0000_0000
  const U64_MAX: u64 := 0xFFFF_FFFF_FFFF_FFFF

  function Min(a: int, b: int): int { if a < b then a else b }
  function Max(a: int, b: int): int { if a < b then b else a }

  function Pow2(n: nat): nat {
    if n == 0 then 1 else 2 * Pow2(n - 1)
  }

  lemma ProductGrows(a: nat, b: nat, unit: nat)
    requires a <= b
    ensures 0 <= a * unit <= b * unit
  {
  }

  lemma SameRemainder(a: nat, q: nat)
    ensures (a + U64_LIMIT * q) % U64_LIMIT == a % U64_LIMIT
  {
  }

  // A sum may wrap at every step or once at the end.
  lemma WrapAdds(a: nat, b: nat)
    ensures (a % U64_LIMIT + b) % U64_LIMIT == (a + b) % U64_LIMIT
  {
    assert a + b == a % U64_LIMIT + b + U64_LIMIT * (a / U64_LIMIT);
    SameRemainder(a % U64_LIMIT + b, a / U64_LIMIT);
  }

  // The `width` low bytes of `value`, least significant first; higher bytes
  // are lost, as a cast to the field's width loses them.
  function LittleEndian(value: nat, width: nat): (raw: seq<byte>)
    ensures |raw| == width
  {
    if width == 0 then [] else [value % 0x100] + LittleEndian(value / 0x100, width - 1)
  }

  function FromLittleEndian(raw: seq<byte>): nat {
    if raw == [] then 0 else raw[0] + 0x100 * FromLittleEndian(raw[1..])
  }

  function FromBigEndian(raw: seq<byte>): nat {
    if raw == [] then 0 else FromBigEndian(raw[..|raw| - 1]) * 0x100 + raw[|raw| - 1]
  }

  function BigEndian(value: nat, width: nat): (raw: seq<byte>)
    ensures |raw| == width
  {
    if width == 0 then [] else BigEndian(value / 0x100, width - 1) + [value % 0x100]
  }

  function Capacity(width: nat): nat {
    if width == 0 then 1 else 0x100 * Capacity(width - 1)
  }

  lemma CapacityOfFields()
    ensures Capacity(1) == 0x100 && Capacity(2) == 0x1_0000
    ensures Capacity(4) == U32_LIMIT && Capacity(8) == U64_LIMIT
  {
    assert Capacity(3) == 0x100_0000;
    assert Capacity(5) == 0x100 * U32_LIMIT;
    assert Capacity(6) == 0x1_0000 * U32_LIMIT;
    assert Capacity(7) == 0x100_0000 * U32_LIMIT;
  }

  lemma {:induction false} LittleEndianRoundTrip(value: nat, width: nat)
    requires value < Capacity(width)
    ensures FromLittleEndian(LittleEndian(value, width)) == value
  {
    if width == 0 {
    } else {
      LittleEndianRoundTrip(value / 0x100, width - 1);
      assert LittleEndian(value, width)[1..] == LittleEndian(value / 0x100, width - 1);
    }
  }

  lemma {:induction false} FromLittleEndianBound(raw: seq<byte>)
    ensures FromLittleEndian(raw) < Capacity(|raw|)
  {
    if raw == [] {
    } else {
      FromLittleEndianBound(raw[1..]);
    }
  }

  // The digits of a field, spelled out.
  lemma LittleEndianDigits(value: nat)
    ensures LittleEndian(value, 4)
            == [value % 0x100, value / 0x100 % 0x100, value / 0x1_0000 % 0x100, value / 0x100_0000 % 0x100]
    ensures LittleEndian(value, 8) == LittleEndian(value, 4) + LittleEndian(value / 0x1_0000_0000, 4)
  {
    hide *;
    PairDigits(value, 2);
    PairDigits(value, 6);
    PairDigits(value / 0x1_0000, 0);
    PairDigits(value / 0x1_0000, 4);
    assert LittleEndian(value / 0x1_0000 / 0x1_0000, 0) == [];
    PairDigits(value, 0);
  }

  lemma PairDigits(value: nat, width: nat)
    ensures LittleEndian(value, 0) == []
    ensures LittleEndian(value, width + 2)
            == [value % 0x100, value / 0x100 % 0x100] + LittleEndian(value / 0x1_0000, width)
  {
    assert LittleEndian(value, width + 2) == [value % 0x100] + LittleEndian(value / 0x100, width + 1);
    var next := value / 0x100;
    assert LittleEndian(next, width + 1) == [next % 0x100] + LittleEndian(next / 0x100, width);
  }

  lemma BigEndianDigits(value: nat)
    ensures BigEndian(value, 2) == [value / 0x100 % 0x100, value % 0x100]
    ensures BigEndian(value, 4) == BigEndian(value / 0x1_0000, 2) + BigEndian(value, 2)
    ensures BigEndian(value, 8) == BigEndian(value / 0x1_0000_0000, 4) + BigEndian(value, 4)
  {
    hide *;
    LastPair(value, 0);
    LastPair(value, 2);
    LastPair(value / 0x1_0000, 0);
    LastPair(value, 6);
    LastPair(value / 0x1_0000, 4);
  }

  lemma LastPair(value: nat, width: nat)
    ensures BigEndian(value, 0) == []
    ensures BigEndian(value, width + 2)
            == BigEndian(value / 0x1_0000, width) + [value / 0x100 % 0x100, value % 0x100]
  {
    var next := value / 0x100;
    assert BigEndian(next, width + 1) == BigEndian(next / 0x100, width) + [next % 0x100];
  }

  lemma {:induction false} FromLittleEndianRoundTrip(raw: seq<byte>)
    ensures LittleEndian(FromLittleEndian(raw), |raw|) == raw
  {
    if raw == [] {
    } else {
      FromLittleEndianRoundTrip(raw[1..]);
    }
  }

  // Four bytes as a number, and the least significant byte comes first.
  lemma FourBytes(raw: seq<byte>)
    requires |raw| == 4
    ensures var b0: int, b1: int, b2: int, b3: int := raw[0], raw[1], raw[2], raw[3];
            FromLittleEndian(raw) == b0 + 0x100 * b1 + 0x1_0000 * b2 + 0x100_0000 * b3
  {
    assert raw[1..][1..] == raw[2..] && raw[2..][1..] == raw[3..] && raw[3..][1..] == [];
    assert FromLittleEndian(raw[3..]) == raw[3];
    assert FromLittleEndian(raw[2..]) == raw[2] + 0x100 * FromLittleEndian(raw[3..]);
    assert FromLittleEndian(raw[1..]) == raw[1] + 0x100 * FromLittleEndian(raw[2..]);
  }

  lemma {:induction false} BigEndianRoundTrip(value: nat, width: nat)
    requires value < Capacity(width)
    ensures FromBigEndian(BigEndian(value, width)) == value
  {
    if width == 0 {
    } else {
      BigEndianRoundTrip(value / 0x100, width - 1);
      var raw := BigEndian(value, width);
      assert raw[..width - 1] == BigEndian(value / 0x100, width - 1);
    }
  }

  lemma {:induction false} FromBigEndianRoundTrip(raw: seq<byte>)
    ensures FromBigEndian(raw) < Capacity(|raw|)
    ensures BigEndian(FromBigEndian(raw), |raw|) == raw
  {
    if raw == [] {
    } else {
      FromBigEndianRoundTrip(raw[..|raw| - 1]);
    }
  }

  // ---- Bytes in place ----

  predicate At(data: seq<byte>, pos: nat, part: seq<byte>) {
    pos + |part| <= |data| && data[pos..pos + |part|] == part
  }

  lemma AtSplits(data: seq<byte>, pos: nat, a: seq<byte>, b: seq<byte>)
    ensures At(data, pos, a + b) <==> At(data, pos, a) && At(data, pos + |a|, b)
  {
    if pos + |a| + |b| <= |data| {
      var whole := data[pos..pos + |a| + |b|];
      assert whole == data[pos..pos + |a|] + data[pos + |a|..pos + |a| + |b|];
      if whole == a + b {
        assert data[pos..pos + |a|] == whole[..|a|] == a;
        assert data[pos + |a|..pos + |a| + |b|] == whole[|a|..] == b;
      }
    }
  }

  lemma AtIndex(data: seq<byte>, pos: nat, part: seq<byte>, i: nat)
    requires At(data, pos, part) && i < |part|
    ensures data[pos + i] == part[i]
  {
    assert data[pos..pos + |part|][i] == data[pos + i];
  }

  lemma AtIsInside(data: seq<byte>, pos: nat, part: seq<byte>)
    requires At(data, pos, part)
    ensures pos + |part| <= |data|
  {
  }

  // `ByteReader::bytes`: a sub-view, when it lies inside the data.
  predicate InRange(data: seq<byte>, offset: nat, count: nat) {
    offset <= |data| && count <= |data| - offset
  }

  // ---- Values that never repeat, and the room they need ----

  predicate Distinct(values: seq<int>) {
    forall i, j :: 0 <= i < j < |values| ==> values[i] != values[j]
  }

  // Values drawn from a range without repeating are no more than it has.
  lemma {:induction false} DistinctFit(values: seq<int>, low: int, count: nat)
    requires Distinct(values) && forall i :: 0 <= i < |values| ==> low <= values[i] < low + count
    ensures |values| <= count
    decreases count
  {
    if values == [] {
    } else {
      assert values[0] < low + count;
    }
    if count == 0 {
    } else {
      if k :| 0 <= k < |values| && values[k] == low + count - 1 {
        var rest := values[..k] + values[k + 1..];
        assert forall i :: 0 <= i < |rest| ==> rest[i] == values[if i < k then i else i + 1];
        DistinctFit(rest, low, count - 1);
      } else {
        DistinctFit(values, low, count - 1);
      }
    }
  }
}

module Outcomes {

  datatype Option<+T> = None | Some(value: T)

  // The repository's `Result<T>`: a value, or the error code with the offset
  // it is reported at.
  datatype Result<+T> = Ok(value: T) | Err(code: ErrorCode, offset: nat)

  datatype ErrorCode = InvalidArgument | OutOfRange | Overflow | IoFailure | NotFound | SourceLost
}
