// Which UTF-16 names share their text with another name.
module Utf16Sharing {
  import opened Bytes
  import opened Outcomes
  import opened Utf8
  import opened NameEscapes
  import opened Utf16Names
  import opened Utf16Recovery

  // A name does exactly when part of it had to be escaped, or when it spells out
  // an escape that some other name would need.

  // A unit that some name needs escaped: a NUL, or either kind of surrogate.
  predicate Escapable(unit: CodeUnit) {
    unit == 0 || 0xD800 <= unit <= 0xDFFF
  }

  predicate SpellsEscapableFront(units: seq<CodeUnit>, trailing: seq<byte>) {
    || (UnitEscapeFront(units) && Escapable(EscapedUnitValue(units)))
    || (ByteEscapeOnly(units) && trailing == [])
  }

  // `%uXXXX` for such a unit anywhere, or `%XX` as the last three units of a name
  // of even length.
  predicate SpellsEscapable(units: seq<CodeUnit>, trailing: seq<byte>)
    decreases |units|
  {
    units != [] && (SpellsEscapableFront(units, trailing) || SpellsEscapable(units[1..], trailing))
  }

  ghost predicate SharesItsText(raw: seq<byte>) {
    exists other: seq<byte> :: other != raw && Decoded(other).utf8 == Decoded(raw).utf8
  }

  // ---- A name from its units ----

  lemma NameOf(units: seq<CodeUnit>, trailing: seq<byte>)
    requires AtMostOne(trailing)
    ensures Units(UnitBytes(units) + trailing) == units && Dangling(UnitBytes(units) + trailing) == trailing
  {
    var raw := UnitBytes(units) + trailing;
    UnitsOfBytes(units);
    assert |raw| / 2 == |units|;
    forall i | 0 <= i < |units|
      ensures Units(raw)[i] == Units(UnitBytes(units))[i]
    {
      assert raw[2 * i] == UnitBytes(units)[2 * i] && raw[2 * i + 1] == UnitBytes(units)[2 * i + 1];
    }
  }

  // A name with other units or another dangling byte is another name.
  lemma OtherName(raw: seq<byte>, units: seq<CodeUnit>, trailing: seq<byte>)
    requires AtMostOne(trailing) && (units != Units(raw) || trailing != Dangling(raw))
    requires TextOf(units, trailing) == TextOf(Units(raw), Dangling(raw))
    ensures SharesItsText(raw)
  {
    hide TextOf, Units, UnitBytes, Dangling;
    NameOf(units, trailing);
    TextOfName(raw);
    TextOfName(UnitBytes(units) + trailing);
  }

  // ---- An escaped part has a name that spells it out ----

  lemma {:induction false} PlainPrefix(plain: seq<CodeUnit>, units: seq<CodeUnit>, trailing: seq<byte>)
    requires AtMostOne(trailing)
    requires forall i :: 0 <= i < |plain| ==> PlainAscii(plain[i]) || plain[i] == ESCAPE_SIGIL
    ensures TextOf(plain + units, trailing) == plain + TextOf(units, trailing)
  {
    hide TextOf;
    if plain == [] {
      assert plain + units == units;
    } else {
      AsciiStepText(plain + units, trailing);
      assert (plain + units)[1..] == plain[1..] + units;
      PlainPrefix(plain[1..], units, trailing);
    }
  }

  // A step that escapes nothing is the same whatever follows it.
  lemma StepStands(units: seq<CodeUnit>, rest: seq<CodeUnit>)
    requires units != [] && !StepIsEscape(units)
    ensures var other := units[..StepUnits(units)] + rest;
            && !StepIsEscape(other) && StepUnits(other) == StepUnits(units) && StepText(other) == StepText(units)
            && other[StepUnits(other)..] == rest
  {
    hide Encoded;
    var other := units[..StepUnits(units)] + rest;
    assert other[0] == units[0];
    if StartsPair(units) {
      assert other[1] == units[1];
    }
  }

  lemma SameStepBefore(units: seq<CodeUnit>, trailing: seq<byte>, rest: seq<CodeUnit>, restTrailing: seq<byte>)
    requires AtMostOne(trailing) && AtMostOne(restTrailing) && units != [] && !StepIsEscape(units)
    requires TextOf(rest, restTrailing) == TextOf(units[StepUnits(units)..], trailing)
    ensures TextOf(units[..StepUnits(units)] + rest, restTrailing) == TextOf(units, trailing)
  {
    hide TextOf, StepText;
    StepStands(units, rest);
    TextSteps(units, trailing);
    TextSteps(units[..StepUnits(units)] + rest, restTrailing);
  }

  lemma {:induction false} EscapedHasTwin(units: seq<CodeUnit>, trailing: seq<byte>) returns (other: seq<CodeUnit>)
    requires AtMostOne(trailing) && !AllDecode(units)
    ensures other != units && TextOf(other, trailing) == TextOf(units, trailing)
    decreases |units|
  {
    hide TextOf, StepText;
    if StepIsEscape(units) {
      var escape := EscapedUnit(units[0]);
      other := escape + units[1..];
      EscapeIsSix(units[0]);
      EscapeIsAscii(units[0]);
      PlainPrefix(escape, units[1..], trailing);
      TextSteps(units, trailing);
      EscapedStepText(units);
      assert |other| > |units|;
    } else {
      var rest := EscapedHasTwin(units[StepUnits(units)..], trailing);
      other := units[..StepUnits(units)] + rest;
      SameStepBefore(units, trailing, rest, trailing);
      assert other[StepUnits(units)..] == rest;
    }
  }

  lemma EscapedStepText(units: seq<CodeUnit>)
    requires units != [] && StepIsEscape(units)
    ensures StepText(units) == EscapedUnit(units[0]) && StepUnits(units) == 1
  {
  }

  // The three units that spell a dangling byte stand for it.
  lemma {:induction false} DanglingHasTwin(units: seq<CodeUnit>, dangling: byte)
    requires AllDecode(units)
    ensures TextOf(units + EscapedByte(dangling), []) == TextOf(units, [dangling])
    decreases |units|
  {
    hide StepText;
    var escape := EscapedByte(dangling);
    if units == [] {
      HexDigitRoundTrip(dangling / 0x10);
      HexDigitRoundTrip(dangling % 0x10);
      assert units + escape == escape;
      CollidingText(escape);
    } else {
      hide TextOf, EscapedByte;
      var rest := units[StepUnits(units)..];
      DanglingHasTwin(rest, dangling);
      SameStepBefore(units, [dangling], rest + escape, []);
      assert units[..StepUnits(units)] + (rest + escape) == units + escape;
    }
  }

  // ---- A spelled escape has a name that needs it ----

  lemma HexValueRoundTrip(digit: byte)
    requires IsHexDigit(digit)
    ensures HexValue(digit) < 16 && HexDigit(HexValue(digit)) == digit
  {
  }

  lemma LowNibble(high: nat, low: nat)
    requires low < 16
    ensures (high * 0x10 + low) / 0x10 == high && (high * 0x10 + low) % 0x10 == low
  {
  }

  lemma NibblesSplit(a: nat, b: nat, c: nat, d: nat)
    requires a < 16 && b < 16 && c < 16 && d < 16
    ensures var unit := a * 0x1000 + b * 0x100 + c * 0x10 + d;
            unit / 0x1000 == a && unit / 0x100 % 0x10 == b && unit / 0x10 % 0x10 == c && unit % 0x10 == d
  {
    var three := a * 0x100 + b * 0x10 + c;
    var unit := three * 0x10 + d;
    LowNibble(three, d);
    LowNibble(a * 0x10 + b, c);
    LowNibble(a, b);
    assert unit / 0x100 == unit / 0x10 / 0x10 && unit / 0x1000 == unit / 0x100 / 0x10;
  }

  lemma EscapeRespells(units: seq<CodeUnit>)
    requires UnitEscapeFront(units)
    ensures EscapedUnit(EscapedUnitValue(units)) == units[..6]
  {
    assert forall i :: 0 <= i < 4 ==> units[2..6][i] == units[i + 2];
    HexValueRoundTrip(units[2]);
    HexValueRoundTrip(units[3]);
    HexValueRoundTrip(units[4]);
    HexValueRoundTrip(units[5]);
    hide HexValue, HexDigit, IsHexDigit;
    NibblesSplit(HexValue(units[2]), HexValue(units[3]), HexValue(units[4]), HexValue(units[5]));
  }

  lemma ByteRespells(units: seq<CodeUnit>)
    requires ByteEscapeOnly(units)
    ensures EscapedByte(EscapedByteValue(units)) == units
  {
    assert forall i :: 0 <= i < 2 ==> units[1..3][i] == units[i + 1];
    HexValueRoundTrip(units[1]);
    HexValueRoundTrip(units[2]);
  }

  lemma SigilDecodes(units: seq<CodeUnit>)
    requires AllDecode(units) && units != [] && 0 < units[0] < 0x80
    ensures AllDecode(units[1..])
  {
    AsciiStepText(units, []);
  }

  lemma {:induction false} PlainDecodes(units: seq<CodeUnit>, n: nat)
    requires AllDecode(units) && n <= |units|
    requires forall i :: 0 <= i < n ==> 0 < units[i] < 0x80
    ensures AllDecode(units[n..])
    decreases n
  {
    hide AllDecode;
    if n == 0 {
      assert units[0..] == units;
    } else {
      SigilDecodes(units);
      PlainDecodes(units[1..], n - 1);
      assert units[1..][n - 1..] == units[n..];
    }
  }

  lemma SpelledUnitHasTwin(units: seq<CodeUnit>)
    requires AllDecode(units) && UnitEscapeFront(units) && Escapable(EscapedUnitValue(units))
    ensures TextOf([EscapedUnitValue(units)] + units[6..], []) == TextOf(units, [])
  {
    var unit := EscapedUnitValue(units);
    var other := [unit] + units[6..];
    EscapeRespells(units);
    EscapeIsAscii(unit);
    assert forall i :: 0 <= i < 6 ==> units[i] == units[..6][i];
    PlainDecodes(units, 6);
    PlainPrefix(units[..6], units[6..], []);
    assert units[..6] + units[6..] == units;
    assert other[1..] == units[6..];
    assert StepIsEscape(other);
    hide UnitEscapeFront, EscapedUnitValue, EscapedUnit, TextOf, StepText;
    EscapedStepText(other);
    TextSteps(other, []);
  }

  lemma {:induction false} SpelledHasTwin(units: seq<CodeUnit>) returns (other: seq<CodeUnit>, trailing: seq<byte>)
    requires AllDecode(units) && SpellsEscapable(units, [])
    ensures AtMostOne(trailing) && TextOf(other, trailing) == TextOf(units, [])
    ensures other != units || trailing != []
    decreases |units|
  {
    hide TextOf, StepText, UnitEscapeFront, ByteEscapeOnly, Escapable, StepIsEscape;
    if UnitEscapeFront(units) && Escapable(EscapedUnitValue(units)) {
      EscapeIsLong(units);
      SpelledUnitHasTwin(units);
      other, trailing := [EscapedUnitValue(units)] + units[6..], [];
      assert |other| < |units|;
    } else if ByteEscapeOnly(units) {
      other, trailing := [], [EscapedByteValue(units)];
      EscapeIsLong(units);
      ByteRespells(units);
      DanglingHasTwin([], EscapedByteValue(units));
      assert [] + units == units;
    } else {
      SpelledInRest(units, []);
      var rest;
      rest, trailing := SpelledHasTwin(units[StepUnits(units)..]);
      other := units[..StepUnits(units)] + rest;
      SameStepBefore(units, [], rest, trailing);
      assert other[StepUnits(units)..] == rest;
    }
  }

  // No escape begins inside a surrogate pair.
  lemma SpelledInRest(units: seq<CodeUnit>, trailing: seq<byte>)
    requires units != []
    ensures SpellsEscapable(units, trailing)
       <==> SpellsEscapableFront(units, trailing) || SpellsEscapable(units[StepUnits(units)..], trailing)
  {
    hide AllHex, Escapable;
    if StartsPair(units) {
      assert units[1..][0] == units[1];
      assert units[1..][1..] == units[2..];
    }
  }

  // ---- And only then ----

  lemma SigilInFrontOfText(units: seq<CodeUnit>)
    requires AllDecode(units) && units != [] && TextOf(units, [])[0] == ESCAPE_SIGIL
    ensures units[0] == ESCAPE_SIGIL
  {
    TextSteps(units, []);
    FirstByte(StepScalar(units));
  }

  // A name that decodes whole and shares the text of a step that escapes spells
  // that escape.
  lemma EscapeIsSpelled(units: seq<CodeUnit>, other: seq<CodeUnit>, trailing: seq<byte>)
    requires AllDecode(units) && AtMostOne(trailing) && other != [] && StepIsEscape(other)
    requires TextOf(units, []) == TextOf(other, trailing)
    ensures units != [] && UnitEscapeFront(units) && Escapable(EscapedUnitValue(units))
  {
    var text, escape := TextOf(units, []), EscapedUnit(other[0]);
    hide TextOf, UnitEscapeFront, EscapedUnitValue, AllDecode, StepText;
    TextSteps(other, trailing);
    EscapedStepText(other);
    EscapeSpellsUnit(other[0]);
    EscapeIsSix(other[0]);
    assert text[..6] == escape[..6] by { assert escape[..6] == escape; }
    UnitEscapeInFront(escape, text);
    NothingLeft(units, []);
    assert text[0] == ESCAPE_SIGIL;
    SigilInFrontOfText(units);
    FrontsAgree(units, []);
    EscapeIsLong(units);
    SameEscapeValue(escape, units);
  }

  lemma DanglingIsSpelled(units: seq<CodeUnit>, dangling: byte)
    requires AllDecode(units) && TextOf(units, []) == TextOf([], [dangling])
    ensures units != [] && ByteEscapeOnly(units)
  {
    HexDigitRoundTrip(dangling / 0x10);
    HexDigitRoundTrip(dangling % 0x10);
    assert TextOf([], [dangling]) == EscapedByte(dangling);
    assert ByteEscapeOnly(EscapedByte(dangling));
    hide TextOf, ByteEscapeOnly, AllDecode;
    NothingLeft(units, []);
    SigilInFrontOfText(units);
    EndsAgree(units, []);
  }

  // Two steps that escape nothing and begin one text are one step.
  lemma SameFirstStep(units: seq<CodeUnit>, other: seq<CodeUnit>, trailing: seq<byte>)
    requires AtMostOne(trailing) && units != [] && !StepIsEscape(units) && other != [] && !StepIsEscape(other)
    requires TextOf(units, []) == TextOf(other, trailing)
    ensures StepUnits(other) == StepUnits(units) && other[..StepUnits(other)] == units[..StepUnits(units)]
    ensures TextOf(units[StepUnits(units)..], []) == TextOf(other[StepUnits(other)..], trailing)
  {
    hide TextOf, Encoded, Utf16Of, StepScalar, FirstScalar;
    TextSteps(units, []);
    TextSteps(other, trailing);
    var c, d := StepScalar(units), StepScalar(other);
    var rest, otherRest := TextOf(units[StepUnits(units)..], []), TextOf(other[StepUnits(other)..], trailing);
    FirstIsRead(c, rest);
    FirstIsRead(d, otherRest);
    StepIsOneScalar(units);
    StepIsOneScalar(other);
    assert (Encoded(c) + rest)[|Encoded(c)|..] == rest;
    assert (Encoded(d) + otherRest)[|Encoded(d)|..] == otherRest;
  }

  lemma {:induction false} SharedIsSpelled(units: seq<CodeUnit>, other: seq<CodeUnit>, trailing: seq<byte>)
    requires AllDecode(units) && AtMostOne(trailing) && TextOf(units, []) == TextOf(other, trailing)
    requires other != units || trailing != []
    ensures SpellsEscapable(units, [])
    decreases |units|
  {
    hide TextOf, UnitEscapeFront, EscapedUnitValue, ByteEscapeOnly, Escapable, StepIsEscape;
    NothingLeft(units, []);
    NothingLeft(other, trailing);
    if other == [] {
      assert trailing == [trailing[0]];
      DanglingIsSpelled(units, trailing[0]);
    } else if StepIsEscape(other) {
      EscapeIsSpelled(units, other, trailing);
    } else {
      SameFirstStep(units, other, trailing);
      assert units == units[..StepUnits(units)] + units[StepUnits(units)..];
      assert other == other[..StepUnits(other)] + other[StepUnits(other)..];
      SharedIsSpelled(units[StepUnits(units)..], other[StepUnits(other)..], trailing);
      SpelledInRest(units, []);
    }
  }

  // A name shares its text with another name if and only if part of it was
  // escaped, or it spells an escape another name would need.
  lemma SharedTextsExactly(raw: seq<byte>)
    ensures SharesItsText(raw) <==> !Decoded(raw).lossless || SpellsEscapable(Units(raw), Dangling(raw))
  {
    hide TextOf, Units, UnitBytes, SpellsEscapable, AllDecode;
    var units, trailing := Units(raw), Dangling(raw);
    TextOfName(raw);
    if !AllDecode(units) {
      var other := EscapedHasTwin(units, trailing);
      OtherName(raw, other, trailing);
    } else if trailing != [] {
      DanglingHasTwin(units, trailing[0]);
      assert trailing == [trailing[0]];
      OtherName(raw, units + EscapedByte(trailing[0]), []);
    } else {
      if SpellsEscapable(units, []) {
        var other, otherTrailing := SpelledHasTwin(units);
        OtherName(raw, other, otherTrailing);
      }
      if other: seq<byte> :| other != raw && Decoded(other).utf8 == Decoded(raw).utf8 {
        TextOfName(other);
        BytesOfUnits(raw);
        BytesOfUnits(other);
        DanglingIsTheRest(raw);
        DanglingIsTheRest(other);
        SharedIsSpelled(units, Units(other), Dangling(other));
      }
    }
  }
}
