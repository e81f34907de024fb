// Names stored as UTF-16LE code units, decoded to UTF-8: surrogate pairs joined,
// and NULs, unpaired surrogates and a dangling byte escaped.
module Utf16Names {
  import opened Bytes
  import opened Outcomes
  import opened Utf8
  import opened NameEscapes

  const NUL: CodeUnit := 0

  predicate IsHighSurrogate(unit: CodeUnit) {
    0xD800 <= unit <= 0xDBFF
  }

  predicate IsLowSurrogate(unit: CodeUnit) {
    0xDC00 <= unit <= 0xDFFF
  }

  predicate IsDirectlyEscapable(unit: CodeUnit) {
    unit == NUL || IsLowSurrogate(unit)
  }

  function CombineSurrogatePair(high: CodeUnit, low: CodeUnit): Scalar
    requires IsHighSurrogate(high) && IsLowSurrogate(low)
  {
    0x1_0000 + (high - 0xD800) * 0x400 + (low - 0xDC00)
  }

  function JoinBytes(low: int, high: int): CodeUnit
    requires 0 <= low < 0x100 && 0 <= high < 0x100
  {
    low + 0x100 * high
  }

  function UnitAt(raw: seq<byte>, index: nat): CodeUnit
    requires 2 * index + 2 <= |raw|
  {
    JoinBytes(raw[2 * index], raw[2 * index + 1])
  }

  function Units(raw: seq<byte>): (units: seq<CodeUnit>)
    ensures |units| == |raw| / 2 && forall i :: 0 <= i < |units| ==> units[i] == UnitAt(raw, i)
  {
    seq(|raw| / 2, i requires 0 <= i < |raw| / 2 => UnitAt(raw, i))
  }

  // ---- One step ----

  predicate StartsPair(units: seq<CodeUnit>)
    requires units != []
  {
    IsHighSurrogate(units[0]) && |units| > 1 && IsLowSurrogate(units[1])
  }

  function StepUnits(units: seq<CodeUnit>): (count: nat)
    requires units != []
    ensures 1 <= count <= |units|
  {
    if StartsPair(units) then 2 else 1
  }

  predicate StepIsEscape(units: seq<CodeUnit>)
    requires units != []
  {
    IsDirectlyEscapable(units[0]) || (IsHighSurrogate(units[0]) && !StartsPair(units))
  }

  // The scalar value a step that escapes nothing stands for.
  function StepScalar(units: seq<CodeUnit>): Scalar
    requires units != [] && !StepIsEscape(units)
  {
    if StartsPair(units) then CombineSurrogatePair(units[0], units[1]) else units[0]
  }

  function StepText(units: seq<CodeUnit>): seq<byte>
    requires units != []
  {
    if StepIsEscape(units) then EscapedUnit(units[0]) else Encoded(StepScalar(units))
  }

  function UnitsText(units: seq<CodeUnit>): seq<byte>
    decreases |units|
  {
    if units == [] then [] else StepText(units) + UnitsText(units[StepUnits(units)..])
  }

  predicate AllDecode(units: seq<CodeUnit>)
    decreases |units|
  {
    units == [] || (!StepIsEscape(units) && AllDecode(units[StepUnits(units)..]))
  }

  function TrailingText(raw: seq<byte>): seq<byte> {
    if |raw| % 2 != 0 then EscapedByte(raw[|raw| - 1]) else []
  }

  function Decoded(raw: seq<byte>): DecodedName {
    DecodedName(UnitsText(Units(raw)) + TrailingText(raw), AllDecode(Units(raw)) && |raw| % 2 == 0)
  }

  // ---- As it runs ----

  method AppendUtf8CodePoint(state: DecodeState, codePoint: Scalar)
    modifies state
    ensures state.Name() == DecodedName(old(state.utf8) + Encoded(codePoint), old(state.lossless))
  {
    if codePoint < 0x80 {
      state.AppendVerbatim([codePoint]);
    } else if codePoint < 0x800 {
      state.AppendVerbatim([0xC0 + codePoint / 0x40]);
      state.AppendVerbatim([0x80 + codePoint % 0x40]);
    } else if codePoint < 0x1_0000 {
      state.AppendVerbatim([0xE0 + codePoint / 0x1000]);
      state.AppendVerbatim([0x80 + codePoint / 0x40 % 0x40]);
      state.AppendVerbatim([0x80 + codePoint % 0x40]);
    } else {
      state.AppendVerbatim([0xF0 + codePoint / 0x4_0000]);
      state.AppendVerbatim([0x80 + codePoint / 0x1000 % 0x40]);
      state.AppendVerbatim([0x80 + codePoint / 0x40 % 0x40]);
      state.AppendVerbatim([0x80 + codePoint % 0x40]);
    }
  }

  method DecodeHighSurrogate(state: DecodeState, raw: seq<byte>, index: nat) returns (consumed: nat)
    requires index < |raw| / 2 && IsHighSurrogate(UnitAt(raw, index))
    modifies state
    ensures consumed == StepUnits(Units(raw)[index..])
    ensures state.Name() == DecodedName(old(state.utf8) + StepText(Units(raw)[index..]),
                                        old(state.lossless) && !StepIsEscape(Units(raw)[index..]))
  {
    var hasNext := index + 1 < |raw| / 2;
    var high := UnitAt(raw, index);
    if hasNext {
      var low := UnitAt(raw, index + 1);
      if IsLowSurrogate(low) {
        AppendUtf8CodePoint(state, CombineSurrogatePair(high, low));
        return 2;
      }
    }
    state.AppendEscapedUnit(high);
    consumed := 1;
  }

  method DecodeStep(state: DecodeState, raw: seq<byte>, index: nat) returns (consumed: nat)
    requires index < |raw| / 2
    modifies state
    ensures consumed == StepUnits(Units(raw)[index..])
    ensures state.Name() == DecodedName(old(state.utf8) + StepText(Units(raw)[index..]),
                                        old(state.lossless) && !StepIsEscape(Units(raw)[index..]))
  {
    var unit := UnitAt(raw, index);
    if IsDirectlyEscapable(unit) {
      state.AppendEscapedUnit(unit);
      return 1;
    }
    if IsHighSurrogate(unit) {
      consumed := DecodeHighSurrogate(state, raw, index);
      return;
    }
    AppendUtf8CodePoint(state, unit);
    consumed := 1;
  }

  method DecodeFullUnits(state: DecodeState, raw: seq<byte>)
    modifies state
    ensures state.Name() == DecodedName(old(state.utf8) + UnitsText(Units(raw)), old(state.lossless) && AllDecode(Units(raw)))
  {
    hide StepText, StepIsEscape, StepUnits;
    ghost var units := Units(raw);
    var index := 0;
    assert units[0..] == units;
    while index < |raw| / 2
      invariant index <= |units|
      invariant state.utf8 + UnitsText(units[index..]) == old(state.utf8) + UnitsText(units)
      invariant state.lossless && AllDecode(units[index..]) <==> old(state.lossless) && AllDecode(units)
    {
      ghost var rest := units[index..];
      assert UnitsText(rest) == StepText(rest) + UnitsText(rest[StepUnits(rest)..]);
      var consumed := DecodeStep(state, raw, index);
      assert rest[consumed..] == units[index + consumed..];
      index := index + consumed;
    }
    assert units[index..] == [];
  }

  method DecodeUtf16Name(raw: seq<byte>) returns (name: DecodedName)
    ensures name == Decoded(raw)
  {
    var state := new DecodeState();
    DecodeFullUnits(state, raw);
    if |raw| % 2 != 0 {
      state.AppendEscapedByte(raw[|raw| - 1]);
    }
    name := state.Name();
  }

  // ---- Always UTF-8 ----

  lemma {:induction false} UnitsTextIsUtf8(units: seq<CodeUnit>)
    ensures WellFormed(UnitsText(units))
    decreases |units|
  {
    hide WellFormed, Encoded;
    if units == [] {
      AsciiIsWellFormed([]);
    } else {
      if StepIsEscape(units) {
        AsciiIsWellFormed(EscapedUnit(units[0]));
      } else {
        OneScalar(StepScalar(units));
      }
      UnitsTextIsUtf8(units[StepUnits(units)..]);
      WellFormedSum(StepText(units), UnitsText(units[StepUnits(units)..]));
    }
  }

  lemma DecodedIsUtf8(raw: seq<byte>)
    ensures WellFormed(Decoded(raw).utf8)
  {
    hide WellFormed;
    UnitsTextIsUtf8(Units(raw));
    AsciiIsWellFormed(TrailingText(raw));
    WellFormedSum(UnitsText(Units(raw)), TrailingText(raw));
  }

  // ---- What UTF-16LE is ----

  // Section 2.1 of RFC 2781.
  function Utf16Of(c: Scalar): (units: seq<CodeUnit>)
    ensures 1 <= |units| <= 2
  {
    if c < 0x1_0000 then [c] else [0xD800 + (c - 0x1_0000) / 0x400, 0xDC00 + (c - 0x1_0000) % 0x400]
  }

  function Utf16Text(scalars: seq<Scalar>): seq<CodeUnit> {
    if scalars == [] then [] else Utf16Of(scalars[0]) + Utf16Text(scalars[1..])
  }

  function LowByte(unit: CodeUnit): byte {
    unit % 0x100
  }

  function HighByte(unit: CodeUnit): byte {
    unit / 0x100
  }

  lemma HalvesJoin(unit: CodeUnit)
    ensures JoinBytes(LowByte(unit), HighByte(unit)) == unit
  {
  }

  lemma JoinedHalves(low: byte, high: byte)
    ensures LowByte(JoinBytes(low, high)) == low && HighByte(JoinBytes(low, high)) == high
  {
  }

  function UnitBytes(units: seq<CodeUnit>): (raw: seq<byte>)
    ensures |raw| == 2 * |units|
  {
    seq(2 * |units|, i requires 0 <= i < 2 * |units| => if i % 2 == 0 then LowByte(units[i / 2]) else HighByte(units[i / 2]))
  }

  lemma UnitBytesAre(units: seq<CodeUnit>, i: nat)
    requires i < |units|
    ensures var raw, unit: int := UnitBytes(units), units[i];
            raw[2 * i] == unit % 0x100 && raw[2 * i + 1] == unit / 0x100
  {
    assert 2 * i / 2 == i && (2 * i + 1) / 2 == i && (2 * i + 1) % 2 == 1;
  }

  lemma BytesOfUnits(raw: seq<byte>)
    ensures UnitBytes(Units(raw)) + raw[|raw| / 2 * 2..] == raw
  {
    hide JoinBytes, LowByte, HighByte;
    var again := UnitBytes(Units(raw));
    forall i | 0 <= i < |again|
      ensures again[i] == raw[i]
    {
      JoinedHalves(raw[i / 2 * 2], raw[i / 2 * 2 + 1]);
      assert Units(raw)[i / 2] == UnitAt(raw, i / 2);
    }
  }

  lemma UnitsOfBytes(units: seq<CodeUnit>)
    ensures Units(UnitBytes(units)) == units
  {
    hide JoinBytes, LowByte, HighByte;
    var raw := UnitBytes(units);
    forall i | 0 <= i < |units|
      ensures UnitAt(raw, i) == units[i]
    {
      assert 2 * i / 2 == i && (2 * i + 1) / 2 == i;
      assert raw[2 * i] == LowByte(units[i]);
      assert raw[2 * i + 1] == HighByte(units[i]);
      HalvesJoin(units[i]);
    }
  }

  lemma StepIsOneScalar(units: seq<CodeUnit>)
    requires units != [] && !StepIsEscape(units)
    ensures Utf16Of(StepScalar(units)) == units[..StepUnits(units)] && StepScalar(units) != 0
  {
    if StartsPair(units) {
      assert units[..2] == [units[0], units[1]];
    }
  }

  lemma ScalarIsOneStep(c: Scalar, rest: seq<CodeUnit>)
    requires c != 0
    ensures var units := Utf16Of(c) + rest;
            !StepIsEscape(units) && StepUnits(units) == |Utf16Of(c)| && StepScalar(units) == c
  {
    var units := Utf16Of(c) + rest;
    assert units[0] == Utf16Of(c)[0];
    if c >= 0x1_0000 {
      assert units[1] == Utf16Of(c)[1];
    }
  }

  lemma {:induction false} DecodingTranscodes(scalars: seq<Scalar>)
    requires 0 !in scalars
    ensures AllDecode(Utf16Text(scalars)) && UnitsText(Utf16Text(scalars)) == Text(scalars)
  {
    hide Utf16Of, Encoded, StepIsEscape, StepUnits, StepScalar;
    if scalars == [] {
    } else {
      var units, rest := Utf16Text(scalars), Utf16Text(scalars[1..]);
      ScalarIsOneStep(scalars[0], rest);
      assert units[|Utf16Of(scalars[0])|..] == rest;
      DecodingTranscodes(scalars[1..]);
    }
  }

  lemma {:induction false} AllDecodeIsUtf16(units: seq<CodeUnit>) returns (scalars: seq<Scalar>)
    requires AllDecode(units)
    ensures 0 !in scalars && Utf16Text(scalars) == units
    decreases |units|
  {
    hide Utf16Of, StepIsEscape, StepUnits, StepScalar;
    if units == [] {
      scalars := [];
    } else {
      var rest := AllDecodeIsUtf16(units[StepUnits(units)..]);
      StepIsOneScalar(units);
      scalars := [StepScalar(units)] + rest;
      assert scalars[1..] == rest;
      assert units == units[..StepUnits(units)] + units[StepUnits(units)..];
    }
  }

  // `raw` is the UTF-16LE encoding of `scalars`, none of them NUL.
  predicate Spells(raw: seq<byte>, scalars: seq<Scalar>) {
    0 !in scalars && raw == UnitBytes(Utf16Text(scalars))
  }

  // The flag says exactly whether the bytes were NUL-free, well-formed UTF-16LE.
  lemma LosslessIsCleanUtf16(raw: seq<byte>)
    ensures Decoded(raw).lossless <==> exists scalars: seq<Scalar> :: Spells(raw, scalars)
  {
    hide Utf16Text, UnitBytes;
    if Decoded(raw).lossless {
      var scalars := AllDecodeIsUtf16(Units(raw));
      BytesOfUnits(raw);
      assert raw[|raw| / 2 * 2..] == [];
      assert Spells(raw, scalars);
    }
    if scalars: seq<Scalar> :| Spells(raw, scalars) {
      DecodingTranscodes(scalars);
      UnitsOfBytes(Utf16Text(scalars));
    }
  }

  // And then the name is the same text in the other encoding: encoding it back
  // gives the bytes on disk.
  lemma LosslessNamesReturn(raw: seq<byte>)
    requires Decoded(raw).lossless
    ensures Scalars(Decoded(raw).utf8).Some?
    ensures UnitBytes(Utf16Text(Scalars(Decoded(raw).utf8).value)) == raw
  {
    hide Utf16Text, UnitBytes, UnitsText, Scalars, Text;
    LosslessIsCleanUtf16(raw);
    var scalars: seq<Scalar> :| Spells(raw, scalars);
    DecodingTranscodes(scalars);
    UnitsOfBytes(Utf16Text(scalars));
    assert Decoded(raw).utf8 == Text(scalars) + [] == Text(scalars);
    ScalarsOfText(scalars);
  }

  lemma LosslessIsInjective(a: seq<byte>, b: seq<byte>)
    requires Decoded(a).lossless && Decoded(b).lossless && Decoded(a).utf8 == Decoded(b).utf8
    ensures a == b
  {
    LosslessNamesReturn(a);
    LosslessNamesReturn(b);
  }
}
