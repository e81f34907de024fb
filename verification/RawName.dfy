// Names a filesystem stores as bare bytes, decoded to UTF-8: what is already
// well formed and harmless passes through, and every other byte is escaped.
module RawNames {
  import opened Bytes
  import opened Outcomes
  import opened Utf8
  import opened NameEscapes

  const PATH_SEPARATOR: byte := 0x2F

  predicate PassesThroughAsItself(raw: byte) {
    0x20 <= raw <= 0x7E && raw != PATH_SEPARATOR && raw != ESCAPE_SIGIL
  }

  // How many bytes a sequence starting with `lead` occupies; 0 when none does.
  function SequenceLength(lead: byte): nat {
    if lead < 0x80 then 1
    else if 0xC2 <= lead <= 0xDF then 2
    else if 0xE0 <= lead <= 0xEF then 3
    else if 0xF0 <= lead <= 0xF4 then 4
    else 0
  }

  datatype SecondByte = SecondByte(low: byte, high: byte)

  function SecondByteRange(lead: byte): SecondByte {
    if lead == 0xE0 then SecondByte(0xA0, 0xBF)
    else if lead == 0xED then SecondByte(0x80, 0x9F)
    else if lead == 0xF0 then SecondByte(0x90, 0xBF)
    else if lead == 0xF4 then SecondByte(0x80, 0x8F)
    else SecondByte(0x80, 0xBF)
  }

  // The top two bits are 10.
  predicate IsContinuation(raw: byte) {
    raw / 0x40 == 2
  }

  predicate SequenceIsWellFormed(at: seq<byte>, length: nat)
    requires at != [] && length > 1
  {
    && |at| >= length
    && var range := SecondByteRange(at[0]);
       && range.low <= at[1] <= range.high
       && forall i :: 2 <= i < length ==> IsContinuation(at[i])
  }

  // ---- One step ----

  predicate StartsSequence(at: seq<byte>)
    requires at != []
  {
    var length := SequenceLength(at[0]);
    length > 1 && SequenceIsWellFormed(at, length)
  }

  function StepLength(at: seq<byte>): (length: nat)
    requires at != []
    ensures 1 <= length <= |at|
  {
    if StartsSequence(at) then SequenceLength(at[0]) else 1
  }

  predicate StepIsVerbatim(at: seq<byte>)
    requires at != []
  {
    StartsSequence(at) || (SequenceLength(at[0]) == 1 && PassesThroughAsItself(at[0]))
  }

  function StepText(at: seq<byte>): seq<byte>
    requires at != []
  {
    if StepIsVerbatim(at) then at[..StepLength(at)] else EscapedByte(at[0])
  }

  function Decoded(raw: seq<byte>): seq<byte>
    decreases |raw|
  {
    if raw == [] then [] else StepText(raw) + Decoded(raw[StepLength(raw)..])
  }

  predicate Lossless(raw: seq<byte>)
    decreases |raw|
  {
    raw == [] || (StepIsVerbatim(raw) && Lossless(raw[StepLength(raw)..]))
  }

  method AppendSingleByte(state: DecodeState, raw: byte, isAscii: bool)
    modifies state
    ensures if isAscii && PassesThroughAsItself(raw)
            then state.Name() == DecodedName(old(state.utf8) + [raw], old(state.lossless))
            else state.Name() == DecodedName(old(state.utf8) + EscapedByte(raw), false)
  {
    if isAscii && PassesThroughAsItself(raw) {
      state.AppendVerbatim([raw]);
      return;
    }
    state.AppendEscapedByte(raw);
  }

  method DecodeStep(state: DecodeState, at: seq<byte>) returns (consumed: nat)
    requires at != []
    modifies state
    ensures consumed == StepLength(at)
    ensures state.Name() == DecodedName(old(state.utf8) + StepText(at), old(state.lossless) && StepIsVerbatim(at))
  {
    var length := SequenceLength(at[0]);
    if length > 1 && SequenceIsWellFormed(at, length) {
      state.AppendVerbatim(at[..length]);
      return length;
    }
    AppendSingleByte(state, at[0], length == 1);
    consumed := 1;
  }

  method DecodeRawName(raw: seq<byte>) returns (name: DecodedName)
    ensures name == DecodedName(Decoded(raw), Lossless(raw))
  {
    hide StepText, StepIsVerbatim, StepLength;
    var state := new DecodeState();
    var at := 0;
    while at < |raw|
      invariant at <= |raw|
      invariant state.utf8 + Decoded(raw[at..]) == Decoded(raw)
      invariant state.lossless && Lossless(raw[at..]) <==> Lossless(raw)
    {
      ghost var rest := raw[at..];
      assert Decoded(rest) == StepText(rest) + Decoded(rest[StepLength(rest)..]);
      var consumed := DecodeStep(state, raw[at..]);
      assert rest[consumed..] == raw[at + consumed..];
      at := at + consumed;
    }
    assert raw[at..] == [];
    name := state.Name();
  }

  // ---- The table is UTF-8 ----

  lemma TableAcceptsScalars(c: Scalar, rest: seq<byte>)
    requires c >= 0x80
    ensures StartsSequence(Encoded(c) + rest)
    ensures SequenceLength((Encoded(c) + rest)[0]) == |Encoded(c)|
  {
    var text := Encoded(c) + rest;
    assert text[0] == Encoded(c)[0] && text[1] == Encoded(c)[1];
    assert |Encoded(c)| > 2 ==> text[2] == Encoded(c)[2];
    assert |Encoded(c)| > 3 ==> text[3] == Encoded(c)[3];
    var lead, second := Encoded(c)[0], Encoded(c)[1];
    assert 0x80 <= second <= 0xBF && 0xC2 <= lead <= 0xF4;
    assert lead == 0xE0 ==> second >= 0xA0;
    assert lead == 0xED ==> second <= 0x9F;
    assert lead == 0xF0 ==> second >= 0x90;
    assert lead == 0xF4 ==> second <= 0x8F;
  }

  // The six-bit digits of a value are the ones it was put together from.
  lemma ThreeDigits(high: nat, middle: nat, low: nat)
    requires middle < 0x40 && low < 0x40
    ensures var c := high * 0x1000 + middle * 0x40 + low;
            c / 0x1000 == high && c / 0x40 % 0x40 == middle && c % 0x40 == low
  {
    var c := high * 0x1000 + middle * 0x40 + low;
    assert c / 0x40 == high * 0x40 + middle;
  }

  lemma FourDigits(top: nat, high: nat, middle: nat, low: nat)
    requires high < 0x40 && middle < 0x40 && low < 0x40
    ensures var c := top * 0x4_0000 + high * 0x1000 + middle * 0x40 + low;
            && c / 0x4_0000 == top && c / 0x1000 % 0x40 == high
            && c / 0x40 % 0x40 == middle && c % 0x40 == low
  {
    ThreeDigits(top * 0x40 + high, middle, low);
  }

  lemma TwoByteScalar(at: seq<byte>) returns (c: Scalar)
    requires at != [] && StartsSequence(at) && SequenceLength(at[0]) == 2
    ensures c >= 0x80 && Encoded(c) == at[..2]
  {
    var lead: int, second: int := at[0], at[1];
    c := (lead - 0xC0) * 0x40 + (second - 0x80);
    ThreeDigits(0, lead - 0xC0, second - 0x80);
  }

  lemma ThreeByteScalar(at: seq<byte>) returns (c: Scalar)
    requires at != [] && StartsSequence(at) && SequenceLength(at[0]) == 3
    ensures c >= 0x80 && Encoded(c) == at[..3]
  {
    assert IsContinuation(at[2]);
    var lead: int, second: int, third: int := at[0], at[1], at[2];
    c := (lead - 0xE0) * 0x1000 + (second - 0x80) * 0x40 + (third - 0x80);
    ThreeDigits(lead - 0xE0, second - 0x80, third - 0x80);
  }

  lemma FourByteScalar(at: seq<byte>) returns (c: Scalar)
    requires at != [] && StartsSequence(at) && SequenceLength(at[0]) == 4
    ensures c >= 0x80 && Encoded(c) == at[..4]
  {
    assert IsContinuation(at[2]) && IsContinuation(at[3]);
    var lead: int, second: int, third: int, fourth: int := at[0], at[1], at[2], at[3];
    c := (lead - 0xF0) * 0x4_0000 + (second - 0x80) * 0x1000 + (third - 0x80) * 0x40 + (fourth - 0x80);
    FourDigits(lead - 0xF0, second - 0x80, third - 0x80, fourth - 0x80);
  }

  lemma TableTakesOnlyScalars(at: seq<byte>) returns (c: Scalar)
    requires at != [] && StartsSequence(at)
    ensures c >= 0x80 && Encoded(c) == at[..StepLength(at)]
  {
    hide Encoded, SequenceIsWellFormed;
    if SequenceLength(at[0]) == 2 {
      c := TwoByteScalar(at);
    } else if SequenceLength(at[0]) == 3 {
      c := ThreeByteScalar(at);
    } else {
      c := FourByteScalar(at);
    }
  }

  // The ranges on the second byte leave exactly the encodings of the scalar
  // values past ASCII: no overlong form, no surrogate, nothing past U+10FFFF.
  lemma TableIsUtf8(at: seq<byte>)
    requires at != []
    ensures StartsSequence(at) <==> FirstScalar(at).Some? && FirstScalar(at).value >= 0x80
  {
    hide SequenceLength, SequenceIsWellFormed, StartsSequence, FirstScalar;
    if StartsSequence(at) {
      var c := TableTakesOnlyScalars(at);
      assert at == Encoded(c) + at[StepLength(at)..];
      FirstIsRead(c, at[StepLength(at)..]);
    }
    if FirstScalar(at).Some? && FirstScalar(at).value >= 0x80 {
      var c := FirstScalar(at).value;
      assert at == Encoded(c) + at[|Encoded(c)|..];
      TableAcceptsScalars(c, at[|Encoded(c)|..]);
    }
  }

  // ---- Undoing the escapes ----

  predicate ReadsAsEscape(text: seq<byte>) {
    |text| >= 3 && text[0] == 0x25 && IsHexDigit(text[1]) && IsHexDigit(text[2])
  }

  function Unescaped(text: seq<byte>): seq<byte>
    decreases |text|
  {
    if text == [] then []
    else if ReadsAsEscape(text) then [HexValue(text[1]) * 0x10 + HexValue(text[2])] + Unescaped(text[3..])
    else [text[0]] + Unescaped(text[1..])
  }

  lemma UnescapedEscape(raw: byte, rest: seq<byte>)
    ensures Unescaped(EscapedByte(raw) + rest) == [raw] + Unescaped(rest)
  {
    var text := EscapedByte(raw) + rest;
    assert text[0] == ESCAPE_SIGIL && text[1] == HexDigit(raw / 0x10) && text[2] == HexDigit(raw % 0x10);
    assert text[3..] == rest;
    HexDigitRoundTrip(raw / 0x10);
    HexDigitRoundTrip(raw % 0x10);
  }

  lemma {:induction false} UnescapedVerbatim(sequence: seq<byte>, rest: seq<byte>)
    requires ESCAPE_SIGIL !in sequence
    ensures Unescaped(sequence + rest) == sequence + Unescaped(rest)
  {
    var text := sequence + rest;
    if sequence == [] {
      assert text == rest;
    } else {
      assert text[0] == sequence[0] && text[1..] == sequence[1..] + rest;
      UnescapedVerbatim(sequence[1..], rest);
      assert sequence == [sequence[0]] + sequence[1..];
    }
  }

  lemma VerbatimHasNoSigil(at: seq<byte>)
    requires at != [] && StepIsVerbatim(at)
    ensures ESCAPE_SIGIL !in StepText(at)
  {
    if StartsSequence(at) {
      SequenceIsPastAscii(at);
    }
  }

  lemma SequenceIsPastAscii(at: seq<byte>)
    requires at != [] && StartsSequence(at)
    ensures forall i :: 0 <= i < StepLength(at) ==> at[i] >= 0x80
  {
  }

  lemma VerbatimStep(at: seq<byte>)
    requires at != [] && StepIsVerbatim(at)
    ensures StepText(at) == at[..StepLength(at)]
  {
  }

  lemma EscapedStep(at: seq<byte>)
    requires at != [] && !StepIsVerbatim(at)
    ensures StepText(at) == EscapedByte(at[0]) && StepLength(at) == 1
  {
  }

  lemma StepIsUndone(at: seq<byte>, rest: seq<byte>)
    requires at != []
    ensures Unescaped(StepText(at) + rest) == at[..StepLength(at)] + Unescaped(rest)
  {
    hide *;
    if StepIsVerbatim(at) {
      VerbatimStep(at);
      VerbatimHasNoSigil(at);
      UnescapedVerbatim(StepText(at), rest);
    } else {
      EscapedStep(at);
      UnescapedEscape(at[0], rest);
    }
  }

  // Escaping loses nothing: every byte string comes back.
  lemma {:induction false} UnescapingUndoesDecoding(raw: seq<byte>)
    ensures Unescaped(Decoded(raw)) == raw
    decreases |raw|
  {
    hide StepText, StepLength;
    if raw == [] {
    } else {
      var rest := raw[StepLength(raw)..];
      UnescapingUndoesDecoding(rest);
      StepIsUndone(raw, Decoded(rest));
      hide Unescaped;
    }
  }

  // So no two names decode to the same text.
  lemma DecodingIsInjective(a: seq<byte>, b: seq<byte>)
    requires Decoded(a) == Decoded(b)
    ensures a == b
  {
    UnescapingUndoesDecoding(a);
    UnescapingUndoesDecoding(b);
  }

  // ---- What the text holds ----

  predicate HarmlessByte(value: byte) {
    value >= 0x20 && value != 0x7F && value != 0x2F
  }

  predicate Harmless(text: seq<byte>) {
    forall i :: 0 <= i < |text| ==> HarmlessByte(text[i])
  }

  lemma StepIsClean(at: seq<byte>)
    requires at != []
    ensures Harmless(StepText(at)) && WellFormed(StepText(at))
  {
    if StartsSequence(at) {
      SequenceIsPastAscii(at);
      var c := TableTakesOnlyScalars(at);
      OneScalar(c);
    } else {
      AsciiIsWellFormed(StepText(at));
    }
  }

  // Whatever the bytes, the text is well-formed UTF-8 with no path separator and
  // no control byte.
  lemma {:induction false} DecodedIsClean(raw: seq<byte>)
    ensures WellFormed(Decoded(raw)) && Harmless(Decoded(raw))
    decreases |raw|
  {
    hide StepText, StepLength, WellFormed, HarmlessByte;
    if raw == [] {
      AsciiIsWellFormed([]);
    } else {
      StepIsClean(raw);
      DecodedIsClean(raw[StepLength(raw)..]);
      WellFormedSum(StepText(raw), Decoded(raw[StepLength(raw)..]));
    }
  }

  // ---- Lossless ----

  lemma {:induction false} DecodingNeverShrinks(raw: seq<byte>)
    ensures |Decoded(raw)| >= |raw|
    ensures |Decoded(raw)| == |raw| <==> Lossless(raw)
    decreases |raw|
  {
    hide StartsSequence, PassesThroughAsItself;
    if raw == [] {
    } else {
      DecodingNeverShrinks(raw[StepLength(raw)..]);
    }
  }

  lemma {:induction false} LosslessIsUnchanged(raw: seq<byte>)
    requires Lossless(raw)
    ensures Decoded(raw) == raw && ESCAPE_SIGIL !in raw
    decreases |raw|
  {
    hide StepIsVerbatim, StepLength, StepText;
    if raw == [] {
    } else {
      LosslessIsUnchanged(raw[StepLength(raw)..]);
      VerbatimHasNoSigil(raw);
      VerbatimStep(raw);
      assert raw == raw[..StepLength(raw)] + raw[StepLength(raw)..];
    }
  }

  // The flag says exactly whether the name came through as itself.
  lemma LosslessMeansUnchanged(raw: seq<byte>)
    ensures Lossless(raw) <==> Decoded(raw) == raw
  {
    DecodingNeverShrinks(raw);
    if Lossless(raw) {
      LosslessIsUnchanged(raw);
    }
  }

  lemma {:induction false} CleanTextIsLossless(scalars: seq<Scalar>)
    requires Harmless(Text(scalars)) && ESCAPE_SIGIL !in Text(scalars)
    ensures Lossless(Text(scalars))
    decreases |scalars|
  {
    if scalars == [] {
    } else {
      var c, rest := scalars[0], Text(scalars[1..]);
      var text := Text(scalars);
      assert text == Encoded(c) + rest;
      assert text[0] == Encoded(c)[0];
      assert forall i :: 0 <= i < |rest| ==> rest[i] == text[|Encoded(c)| + i];
      CleanTextIsLossless(scalars[1..]);
      if c < 0x80 {
        assert Encoded(c) == [c];
        AsciiStep(text);
      } else {
        TableAcceptsScalars(c, rest);
      }
      hide StartsSequence, SequenceLength, Text, Encoded;
      assert text[StepLength(text)..] == rest;
    }
  }

  lemma AsciiStep(text: seq<byte>)
    requires text != [] && text[0] < 0x80 && HarmlessByte(text[0]) && text[0] != ESCAPE_SIGIL
    ensures StepIsVerbatim(text) && StepLength(text) == 1
  {
  }

  // And exactly when it was well-formed UTF-8 with nothing in it to reserve.
  lemma LosslessIsCleanUtf8(raw: seq<byte>)
    ensures Lossless(raw) <==> WellFormed(raw) && Harmless(raw) && 0x25 !in raw
  {
    hide Decoded, Harmless, Lossless, Text;
    if Lossless(raw) {
      LosslessIsUnchanged(raw);
      DecodedIsClean(raw);
    }
    if WellFormed(raw) && Harmless(raw) && ESCAPE_SIGIL !in raw {
      var scalars: seq<Scalar> :| Text(scalars) == raw;
      CleanTextIsLossless(scalars);
    }
  }
}
