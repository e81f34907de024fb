// Whether the escapes of a UTF-16 name can be undone. The sigil itself is not
// escaped, so a name that already spells an escape reads back as something else;
// every other name comes back. The text of a name and its code units agree for as
// long as both are plain ASCII, so an escape is spelled in the one exactly where
// it is spelled in the other.
module Utf16Recovery {
  import opened Bytes
  import opened Outcomes
  import opened Utf8
  import opened NameEscapes
  import opened Utf16Names

  // ---- Undoing ----

  predicate AllHex(digits: seq<int>) {
    forall i :: 0 <= i < |digits| ==> IsHexDigit(digits[i])
  }

  // `%uXXXX` at the front, of a text or of code units.
  predicate UnitEscapeFront(text: seq<int>) {
    |text| >= 6 && text[0] == 0x25 && text[1] == 0x75 && AllHex(text[2..6])
  }

  // Nothing but `%XX`.
  predicate ByteEscapeOnly(text: seq<int>) {
    |text| == 3 && text[0] == 0x25 && AllHex(text[1..3])
  }

  function EscapedUnitValue(text: seq<int>): CodeUnit
    requires UnitEscapeFront(text)
  {
    assert text[2..6][0] == text[2] && text[2..6][1] == text[3] && text[2..6][2] == text[4] && text[2..6][3] == text[5];
    HexValue(text[2]) * 0x1000 + HexValue(text[3]) * 0x100 + HexValue(text[4]) * 0x10 + HexValue(text[5])
  }

  function EscapedByteValue(text: seq<int>): byte
    requires ByteEscapeOnly(text)
  {
    assert text[1..3][0] == text[1] && text[1..3][1] == text[2];
    HexValue(text[1]) * 0x10 + HexValue(text[2])
  }

  datatype Undone = Undone(units: seq<CodeUnit>, trailing: seq<byte>)

  function InFront(units: seq<CodeUnit>, rest: Undone): Undone {
    Undone(units + rest.units, rest.trailing)
  }

  // An escaped unit wherever one is spelled, an escaped byte at the very end, and
  // the UTF-16 of everything else.
  function Unescaped(text: seq<byte>): Undone
    decreases |text|
  {
    if text == [] then Undone([], [])
    else if UnitEscapeFront(text) then InFront([EscapedUnitValue(text)], Unescaped(text[6..]))
    else if ByteEscapeOnly(text) then Undone([], [EscapedByteValue(text)])
    else
      match FirstScalar(text)
      case None => Undone([], [])
      case Some(c) => InFront(Utf16Of(c), Unescaped(text[|Encoded(c)|..]))
  }

  function Recovered(text: seq<byte>): seq<byte> {
    UnitBytes(Unescaped(text).units) + Unescaped(text).trailing
  }

  // ---- Names that spell an escape ----

  // What follows the last whole unit: nothing, or one dangling byte.
  predicate AtMostOne(trailing: seq<byte>) {
    |trailing| <= 1
  }

  predicate SpellsEscapeFront(units: seq<CodeUnit>, trailing: seq<byte>) {
    UnitEscapeFront(units) || (ByteEscapeOnly(units) && trailing == [])
  }

  // An escape is spelled somewhere: `%uXXXX` anywhere, or `%XX` as the last three
  // units of a name of even length.
  predicate SpellsEscape(units: seq<CodeUnit>, trailing: seq<byte>)
    decreases |units|
  {
    units != [] && (SpellsEscapeFront(units, trailing) || SpellsEscape(units[1..], trailing))
  }

  function Dangling(raw: seq<byte>): (trailing: seq<byte>)
    ensures |trailing| <= 1
  {
    if |raw| % 2 != 0 then [raw[|raw| - 1]] else []
  }

  function TextOf(units: seq<CodeUnit>, trailing: seq<byte>): seq<byte>
    requires AtMostOne(trailing)
  {
    UnitsText(units) + if trailing == [] then [] else EscapedByte(trailing[0])
  }

  lemma TextSteps(units: seq<CodeUnit>, trailing: seq<byte>)
    requires units != [] && AtMostOne(trailing)
    ensures TextOf(units, trailing) == StepText(units) + TextOf(units[StepUnits(units)..], trailing)
  {
    hide StepText, StepUnits;
  }

  // ---- An ASCII byte of the text other than the sigil is a unit of the name ----

  predicate PlainAscii(value: int) {
    0 < value < 0x80 && value != ESCAPE_SIGIL
  }

  lemma PlainFront(units: seq<CodeUnit>, trailing: seq<byte>)
    requires AtMostOne(trailing)
    ensures var text := TextOf(units, trailing);
            && (units != [] && PlainAscii(units[0]) ==> text != [] && text[0] == units[0])
            && (text != [] && PlainAscii(text[0]) ==> units != [] && units[0] == text[0])
  {
    if units != [] {
      TextSteps(units, trailing);
      if !StepIsEscape(units) {
        FirstByte(StepScalar(units));
      }
    }
  }

  lemma FirstByte(c: Scalar)
    ensures c < 0x80 ==> Encoded(c) == [c]
    ensures c >= 0x80 ==> Encoded(c)[0] >= 0xC0
  {
  }

  lemma AsciiStepText(units: seq<CodeUnit>, trailing: seq<byte>)
    requires AtMostOne(trailing) && units != [] && 0 < units[0] < 0x80
    ensures !StepIsEscape(units) && StepUnits(units) == 1 && StepScalar(units) == units[0]
    ensures TextOf(units, trailing) == [units[0]] + TextOf(units[1..], trailing)
  {
    FirstByte(units[0]);
    TextSteps(units, trailing);
  }

  // The text and the name agree for as long as both are plain ASCII.
  lemma {:induction false} PlainRun(units: seq<CodeUnit>, trailing: seq<byte>, n: nat)
    requires AtMostOne(trailing)
    requires (n <= |units| && forall i :: 0 <= i < n ==> PlainAscii(units[i]))
          || (n <= |TextOf(units, trailing)| && forall i :: 0 <= i < n ==> PlainAscii(TextOf(units, trailing)[i]))
    ensures n <= |units| && n <= |TextOf(units, trailing)| && TextOf(units, trailing)[..n] == units[..n]
    ensures TextOf(units, trailing)[n..] == TextOf(units[n..], trailing)
    decreases n
  {
    hide TextOf;
    if n == 0 {
      assert units[0..] == units;
    } else {
      var text := TextOf(units, trailing);
      PlainFront(units, trailing);
      AsciiStepText(units, trailing);
      var rest := TextOf(units[1..], trailing);
      assert forall i :: 0 <= i < |rest| ==> rest[i] == text[i + 1];
      PlainRun(units[1..], trailing, n - 1);
      assert text[..n] == [units[0]] + rest[..n - 1];
      assert units[..n] == [units[0]] + units[1..][..n - 1];
      assert text[n..] == rest[n - 1..];
      assert units[n..] == units[1..][n - 1..];
    }
  }

  lemma NothingLeft(units: seq<CodeUnit>, trailing: seq<byte>)
    requires AtMostOne(trailing)
    ensures TextOf(units, trailing) == [] <==> units == [] && trailing == []
  {
    if units != [] {
      TextSteps(units, trailing);
    }
  }

  // What an escape spells after its sigil is plain.
  lemma UnitEscapeIsPlain(text: seq<int>)
    requires UnitEscapeFront(text)
    ensures forall i :: 0 <= i < 5 ==> PlainAscii(text[1..][i])
  {
    assert forall i :: 1 <= i < 5 ==> text[1..][i] == text[2..6][i - 1];
  }

  lemma ByteEscapeIsPlain(text: seq<int>)
    requires ByteEscapeOnly(text)
    ensures forall i :: 0 <= i < 2 ==> PlainAscii(text[1..][i])
  {
    assert forall i :: 0 <= i < 2 ==> text[1..][i] == text[1..3][i];
  }

  lemma FrontOfSum(x: int, a: seq<int>, b: seq<int>, n: nat)
    requires n <= |a| && n <= |b| && a[..n] == b[..n]
    ensures ([x] + a)[..n + 1] == ([x] + b)[..n + 1]
    ensures ([x] + a)[n + 1..] == a[n..] && ([x] + a)[1..] == a
  {
    assert ([x] + a)[..n + 1] == [x] + a[..n];
    assert ([x] + b)[..n + 1] == [x] + b[..n];
  }

  lemma SigilInFront(units: seq<CodeUnit>, trailing: seq<byte>)
    requires AtMostOne(trailing) && units != [] && units[0] == ESCAPE_SIGIL
    ensures TextOf(units, trailing) == [units[0]] + TextOf(units[1..], trailing)
    ensures TextOf(units, trailing)[1..] == TextOf(units[1..], trailing)
    ensures units == [units[0]] + units[1..]
  {
    AsciiStepText(units, trailing);
  }

  // Behind a sigil, the text goes on as the name does for `n` plain characters.
  lemma RunBehindSigil(units: seq<CodeUnit>, trailing: seq<byte>, n: nat)
    requires AtMostOne(trailing) && units != [] && units[0] == ESCAPE_SIGIL
    requires var text := TextOf(units, trailing);
             || (n < |units| && forall i :: 0 <= i < n ==> PlainAscii(units[1..][i]))
             || (n < |text| && forall i :: 0 <= i < n ==> PlainAscii(text[1..][i]))
    ensures n < |units| && n < |TextOf(units, trailing)| && TextOf(units, trailing)[..n + 1] == units[..n + 1]
    ensures TextOf(units, trailing)[n + 1..] == TextOf(units[n + 1..], trailing)
  {
    hide TextOf, PlainAscii;
    SigilInFront(units, trailing);
    PlainRun(units[1..], trailing, n);
    FrontOfSum(units[0], TextOf(units[1..], trailing), units[1..], n);
    FrontOfSum(units[0], units[1..], units[1..], n);
  }

  lemma UnitEscapeInFront(text: seq<int>, other: seq<int>)
    requires UnitEscapeFront(text) && |other| >= 6 && text[..6] == other[..6]
    ensures UnitEscapeFront(other)
  {
    assert other[2..6] == other[..6][2..] == text[2..6];
    assert other[0] == other[..6][0] && other[1] == other[..6][1];
  }

  lemma ByteEscapeIs(text: seq<int>, other: seq<int>)
    requires ByteEscapeOnly(text) && |other| == 3 && text[..3] == other[..3]
    ensures ByteEscapeOnly(other)
  {
    assert other == other[..3] == text[..3] == text;
  }

  lemma FrontsAgree(units: seq<CodeUnit>, trailing: seq<byte>)
    requires AtMostOne(trailing) && units != [] && units[0] == ESCAPE_SIGIL
    ensures UnitEscapeFront(TextOf(units, trailing)) <==> UnitEscapeFront(units)
    ensures UnitEscapeFront(units) ==> TextOf(units, trailing)[..6] == units[..6]
    ensures UnitEscapeFront(units) ==> TextOf(units, trailing)[6..] == TextOf(units[6..], trailing)
  {
    hide TextOf, UnitEscapeFront, PlainAscii;
    var text := TextOf(units, trailing);
    if UnitEscapeFront(units) {
      EscapeIsLong(units);
      UnitEscapeIsPlain(units);
      RunBehindSigil(units, trailing, 5);
      UnitEscapeInFront(units, text);
    } else if UnitEscapeFront(text) {
      EscapeIsLong(text);
      UnitEscapeIsPlain(text);
      RunBehindSigil(units, trailing, 5);
      UnitEscapeInFront(text, units);
    }
  }

  lemma EscapeIsLong(text: seq<int>)
    ensures UnitEscapeFront(text) ==> |text| >= 6
    ensures ByteEscapeOnly(text) ==> |text| == 3
  {
  }

  lemma EndsAgree(units: seq<CodeUnit>, trailing: seq<byte>)
    requires AtMostOne(trailing) && units != [] && units[0] == ESCAPE_SIGIL
    ensures ByteEscapeOnly(TextOf(units, trailing)) <==> ByteEscapeOnly(units) && trailing == []
  {
    hide TextOf, ByteEscapeOnly, PlainAscii;
    var text := TextOf(units, trailing);
    EscapeIsLong(units);
    EscapeIsLong(text);
    if ByteEscapeOnly(units) && trailing == [] {
      ByteEscapeIsPlain(units);
      RunBehindSigil(units, trailing, 2);
      NothingLeft(units[3..], trailing);
      ByteEscapeIs(units, text);
    } else if ByteEscapeOnly(text) {
      ByteEscapeIsPlain(text);
      RunBehindSigil(units, trailing, 2);
      NothingLeft(units[3..], trailing);
      ByteEscapeIs(text, units);
    }
  }

  // ---- One step undone ----

  lemma EscapeSpellsUnit(unit: CodeUnit)
    ensures UnitEscapeFront(EscapedUnit(unit)) && EscapedUnitValue(EscapedUnit(unit)) == unit
  {
    var escape := EscapedUnit(unit);
    HexDigitRoundTrip(unit / 0x1000);
    HexDigitRoundTrip(unit / 0x100 % 0x10);
    HexDigitRoundTrip(unit / 0x10 % 0x10);
    HexDigitRoundTrip(unit % 0x10);
    NibblesJoin(unit);
    hide HexDigit, HexValue, IsHexDigit;
    assert AllHex(escape[2..6]);
  }

  lemma SameEscapeValue(text: seq<int>, other: seq<int>)
    requires UnitEscapeFront(text) && UnitEscapeFront(other) && text[..6] == other[..6]
    ensures EscapedUnitValue(text) == EscapedUnitValue(other)
  {
    hide HexValue, IsHexDigit;
    assert forall i :: 0 <= i < 6 ==> text[i] == text[..6][i] == other[i];
  }

  lemma UnescapedFront(text: seq<byte>)
    requires UnitEscapeFront(text)
    ensures Unescaped(text) == InFront([EscapedUnitValue(text)], Unescaped(text[6..]))
  {
    hide EscapedUnitValue, FirstScalar;
  }

  lemma UnitEscapeIsUndone(unit: CodeUnit, rest: seq<byte>)
    ensures Unescaped(EscapedUnit(unit) + rest) == InFront([unit], Unescaped(rest))
  {
    var escape, text := EscapedUnit(unit), EscapedUnit(unit) + rest;
    EscapeSpellsUnit(unit);
    hide Unescaped, UnitEscapeFront, EscapedUnitValue, EscapedUnit;
    EscapeIsSix(unit);
    assert text[..6] == escape == escape[..6];
    assert text[6..] == rest;
    UnitEscapeInFront(escape, text);
    SameEscapeValue(escape, text);
    UnescapedFront(text);
  }

  lemma EscapeIsSix(unit: CodeUnit)
    ensures |EscapedUnit(unit)| == 6
  {
  }

  lemma NibblesJoin(unit: CodeUnit)
    ensures unit / 0x1000 * 0x1000 + unit / 0x100 % 0x10 * 0x100 + unit / 0x10 % 0x10 * 0x10 + unit % 0x10 == unit
  {
    assert unit / 0x10 / 0x10 == unit / 0x100 && unit / 0x100 / 0x10 == unit / 0x1000;
  }

  lemma ByteEscapeIsUndone(raw: byte)
    ensures Unescaped(EscapedByte(raw)) == Undone([], [raw])
  {
    var text := EscapedByte(raw);
    HexDigitRoundTrip(raw / 0x10);
    HexDigitRoundTrip(raw % 0x10);
    assert text[1..3] == [HexDigit(raw / 0x10), HexDigit(raw % 0x10)];
  }

  lemma ScalarIsUndone(c: Scalar, rest: seq<byte>)
    requires !UnitEscapeFront(Encoded(c) + rest) && !ByteEscapeOnly(Encoded(c) + rest)
    ensures Unescaped(Encoded(c) + rest) == InFront(Utf16Of(c), Unescaped(rest))
  {
    hide Encoded, FirstScalar, UnitEscapeFront, ByteEscapeOnly;
    FirstIsRead(c, rest);
    assert (Encoded(c) + rest)[|Encoded(c)|..] == rest;
  }

  lemma OtherFronts(units: seq<CodeUnit>, trailing: seq<byte>)
    requires AtMostOne(trailing) && units != [] && !StepIsEscape(units) && units[0] != ESCAPE_SIGIL
    ensures !UnitEscapeFront(TextOf(units, trailing)) && !ByteEscapeOnly(TextOf(units, trailing))
  {
    TextSteps(units, trailing);
    FirstByte(StepScalar(units));
  }

  lemma StepIsUndone(units: seq<CodeUnit>, trailing: seq<byte>)
    requires AtMostOne(trailing) && units != [] && !SpellsEscapeFront(units, trailing)
    ensures Unescaped(TextOf(units, trailing))
            == InFront(units[..StepUnits(units)], Unescaped(TextOf(units[StepUnits(units)..], trailing)))
  {
    hide TextOf, Unescaped, InFront, EscapedUnit, Encoded, Utf16Of, UnitEscapeFront, ByteEscapeOnly, StepScalar;
    TextSteps(units, trailing);
    var rest := TextOf(units[StepUnits(units)..], trailing);
    if StepIsEscape(units) {
      UnitEscapeIsUndone(units[0], rest);
      assert units[..1] == [units[0]];
    } else {
      if units[0] == ESCAPE_SIGIL {
        FrontsAgree(units, trailing);
        EndsAgree(units, trailing);
      } else {
        OtherFronts(units, trailing);
      }
      ScalarIsUndone(StepScalar(units), rest);
      StepIsOneScalar(units);
    }
  }

  lemma SpelledFrontIsUndone(units: seq<CodeUnit>, trailing: seq<byte>)
    requires AtMostOne(trailing) && UnitEscapeFront(units)
    ensures Unescaped(TextOf(units, trailing)).trailing == Unescaped(TextOf(units[6..], trailing)).trailing
    ensures |Unescaped(TextOf(units, trailing)).units| == 1 + |Unescaped(TextOf(units[6..], trailing)).units|
  {
    hide TextOf;
    FrontsAgree(units, trailing);
    hide AllHex;
  }

  // ---- The whole name ----

  lemma SpellsRest(units: seq<CodeUnit>, trailing: seq<byte>)
    requires units != []
    ensures SpellsEscape(units, trailing)
       <==> SpellsEscapeFront(units, trailing) || SpellsEscape(units[StepUnits(units)..], trailing)
  {
    hide AllHex;
    if StartsPair(units) {
      assert units[1..][0] == units[1];
      assert units[1..][1..] == units[2..];
    }
  }

  lemma OnlyTrailing(trailing: seq<byte>)
    requires AtMostOne(trailing)
    ensures Unescaped(TextOf([], trailing)) == Undone([], trailing)
  {
    NothingLeft([], trailing);
    hide Unescaped;
    if trailing == [] {
      NothingIsUndone();
    } else {
      ByteEscapeIsUndone(trailing[0]);
      assert TextOf([], trailing) == EscapedByte(trailing[0]);
    }
  }

  lemma NothingIsUndone()
    ensures Unescaped([]) == Undone([], [])
  {
  }

  lemma {:induction false} UnspelledComesBack(units: seq<CodeUnit>, trailing: seq<byte>)
    requires AtMostOne(trailing) && !SpellsEscape(units, trailing)
    ensures Unescaped(TextOf(units, trailing)) == Undone(units, trailing)
    decreases |units|
  {
    hide TextOf, Unescaped, SpellsEscape, SpellsEscapeFront, StepUnits;
    if units == [] {
      OnlyTrailing(trailing);
    } else {
      SpellsRest(units, trailing);
      StepIsUndone(units, trailing);
      UnspelledComesBack(units[StepUnits(units)..], trailing);
      assert units[..StepUnits(units)] + units[StepUnits(units)..] == units;
    }
  }

  function Size(undone: Undone): nat {
    2 * |undone.units| + |undone.trailing|
  }

  // A spelled escape shrinks when it is undone, so such a name cannot come back.
  lemma {:induction false} SpelledShrinks(units: seq<CodeUnit>, trailing: seq<byte>)
    requires AtMostOne(trailing)
    ensures Size(Unescaped(TextOf(units, trailing))) <= 2 * |units| + |trailing|
    ensures SpellsEscape(units, trailing) ==> Size(Unescaped(TextOf(units, trailing))) < 2 * |units| + |trailing|
    decreases |units|
  {
    if units == [] {
      UnspelledComesBack(units, trailing);
    } else if UnitEscapeFront(units) {
      SpelledFrontIsUndone(units, trailing);
      SpelledShrinks(units[6..], trailing);
    } else if ByteEscapeOnly(units) && trailing == [] {
      EndsAgree(units, trailing);
      FrontIsTheByte(units);
    } else {
      hide TextOf, Unescaped, SpellsEscape, UnitEscapeFront, ByteEscapeOnly, StepUnits;
      SpellsRest(units, trailing);
      StepIsUndone(units, trailing);
      SpelledShrinks(units[StepUnits(units)..], trailing);
    }
  }

  lemma FrontIsTheByte(units: seq<CodeUnit>)
    requires ByteEscapeOnly(units) && ByteEscapeOnly(TextOf(units, []))
    ensures Size(Unescaped(TextOf(units, []))) == 1
  {
    hide TextOf, AllHex;
  }

  lemma TextOfName(raw: seq<byte>)
    ensures Decoded(raw).utf8 == TextOf(Units(raw), Dangling(raw))
  {
  }

  lemma DanglingIsTheRest(raw: seq<byte>)
    ensures raw[|raw| / 2 * 2..] == Dangling(raw)
  {
  }

  // Undoing the escapes gives the name's bytes back exactly when the name did not
  // itself spell one.
  lemma EscapesAreUndone(raw: seq<byte>)
    ensures Recovered(Decoded(raw).utf8) == raw <==> !SpellsEscape(Units(raw), Dangling(raw))
  {
    hide Unescaped, TextOf, SpellsEscape, Units, UnitBytes;
    TextOfName(raw);
    BytesOfUnits(raw);
    DanglingIsTheRest(raw);
    if SpellsEscape(Units(raw), Dangling(raw)) {
      SpelledShrinks(Units(raw), Dangling(raw));
      assert |Recovered(Decoded(raw).utf8)| < |raw|;
    } else {
      UnspelledComesBack(Units(raw), Dangling(raw));
    }
  }

  // Every unit that is escaped on its own, a NUL among them, decodes to the same
  // text as the six characters that spell its escape.
  lemma EscapesCollide(unit: CodeUnit)
    requires IsDirectlyEscapable(unit)
    ensures Decoded(UnitBytes([unit])).utf8 == Decoded(UnitBytes(EscapedUnit(unit))).utf8 == EscapedUnit(unit)
    ensures UnitBytes([unit]) != UnitBytes(EscapedUnit(unit))
  {
    EscapeIsSix(unit);
    EscapeIsAscii(unit);
    UnitsOfBytes([unit]);
    UnitsOfBytes(EscapedUnit(unit));
    CollidingText(EscapedUnit(unit));
    OnlyEscaped(unit);
    hide UnitBytes, Units, UnitsText, EscapedUnit;
  }

  lemma EscapeIsAscii(unit: CodeUnit)
    ensures forall i :: 0 <= i < |EscapedUnit(unit)| ==>
              PlainAscii(EscapedUnit(unit)[i]) || EscapedUnit(unit)[i] == ESCAPE_SIGIL
  {
    HexDigitRoundTrip(unit / 0x1000);
    HexDigitRoundTrip(unit / 0x100 % 0x10);
    HexDigitRoundTrip(unit / 0x10 % 0x10);
    HexDigitRoundTrip(unit % 0x10);
  }

  lemma OnlyEscaped(unit: CodeUnit)
    requires IsDirectlyEscapable(unit)
    ensures UnitsText([unit]) == EscapedUnit(unit)
  {
    assert UnitsText([unit]) == EscapedUnit(unit) + [];
  }

  lemma {:induction false} CollidingText(units: seq<CodeUnit>)
    requires forall i :: 0 <= i < |units| ==> PlainAscii(units[i]) || units[i] == ESCAPE_SIGIL
    ensures UnitsText(units) == units
    decreases |units|
  {
    if units == [] {
    } else {
      AsciiStepText(units, []);
      CollidingText(units[1..]);
      assert units == [units[0]] + units[1..];
    }
  }
}
