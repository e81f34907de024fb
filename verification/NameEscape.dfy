// UTF-8, and the escapes that stand for name content that cannot pass through
// as itself. A text is well formed when it is the encoding of some scalar values;
// reading it back takes the value a lead byte spells and accepts it when its own
// encoding is what is there.
module Utf8 {
  import opened Bytes
  import opened Outcomes

  // A Unicode scalar value: a code point that is not a surrogate.
  type Scalar = c: nat | c < 0x11_0000 && (c < 0xD800 || c >= 0xE000)

  predicate IsScalar(c: nat) {
    c < 0x11_0000 && (c < 0xD800 || c >= 0xE000)
  }

  // Section 3 of RFC 3629.
  function Encoded(c: Scalar): (bytes: seq<byte>)
    ensures 1 <= |bytes| <= 4
  {
    if c < 0x80 then [c]
    else if c < 0x800 then [0xC0 + c / 0x40, 0x80 + c % 0x40]
    else if c < 0x1_0000 then [0xE0 + c / 0x1000, 0x80 + c / 0x40 % 0x40, 0x80 + c % 0x40]
    else [0xF0 + c / 0x4_0000, 0x80 + c / 0x1000 % 0x40, 0x80 + c / 0x40 % 0x40, 0x80 + c % 0x40]
  }

  function Text(scalars: seq<Scalar>): seq<byte> {
    if scalars == [] then [] else Encoded(scalars[0]) + Text(scalars[1..])
  }

  ghost predicate WellFormed(text: seq<byte>) {
    exists scalars: seq<Scalar> :: Text(scalars) == text
  }

  lemma {:induction false} TextOfSum(a: seq<Scalar>, b: seq<Scalar>)
    ensures Text(a + b) == Text(a) + Text(b)
  {
    hide Encoded;
    if a == [] {
      assert a + b == b;
    } else {
      assert (a + b)[1..] == a[1..] + b;
      TextOfSum(a[1..], b);
    }
  }

  lemma WellFormedSum(a: seq<byte>, b: seq<byte>)
    requires WellFormed(a) && WellFormed(b)
    ensures WellFormed(a + b)
  {
    hide Text;
    var left: seq<Scalar> :| Text(left) == a;
    var right: seq<Scalar> :| Text(right) == b;
    TextOfSum(left, right);
  }

  lemma OneScalar(c: Scalar)
    ensures Text([c]) == Encoded(c) && WellFormed(Encoded(c))
  {
    hide Encoded;
    assert [c][1..] == [];
    assert Text([c]) == Encoded(c) + [];
  }

  lemma {:induction false} AsciiIsWellFormed(text: seq<byte>)
    requires forall i :: 0 <= i < |text| ==> text[i] < 0x80
    ensures WellFormed(text)
  {
    if text == [] {
      assert Text([]) == text;
    } else {
      AsciiIsWellFormed(text[1..]);
      OneScalar(text[0]);
      WellFormedSum([text[0]], text[1..]);
      assert text == [text[0]] + text[1..];
    }
  }

  // ---- Reading it back ----

  // What a continuation byte adds to the value of its sequence.
  function Bits(continuation: int): int {
    continuation - 0x80
  }

  // The value a lead byte and its continuation bytes spell, by the lead alone.
  function Spelled(text: seq<byte>): (value: Option<int>)
    requires text != []
  {
    var lead: int := text[0];
    if lead < 0x80 then Some(lead)
    else if lead < 0xE0 then
      if |text| < 2 then None else Some((lead - 0xC0) * 0x40 + Bits(text[1]))
    else if lead < 0xF0 then
      if |text| < 3 then None else Some((lead - 0xE0) * 0x1000 + Bits(text[1]) * 0x40 + Bits(text[2]))
    else
      if |text| < 4 then None
      else Some((lead - 0xF0) * 0x4_0000 + Bits(text[1]) * 0x1000 + Bits(text[2]) * 0x40 + Bits(text[3]))
  }

  // The scalar a text begins with, if the bytes are that scalar's own encoding.
  function FirstScalar(text: seq<byte>): (first: Option<Scalar>)
    ensures first.Some? ==> |Encoded(first.value)| <= |text| && text[..|Encoded(first.value)|] == Encoded(first.value)
  {
    if text == [] then None
    else
      match Spelled(text)
      case None => None
      case Some(c) =>
        if c >= 0 && IsScalar(c) && |Encoded(c)| <= |text| && text[..|Encoded(c)|] == Encoded(c) then Some(c) else None
  }

  lemma FirstIsRead(c: Scalar, rest: seq<byte>)
    ensures FirstScalar(Encoded(c) + rest) == Some(c)
  {
    var text := Encoded(c) + rest;
    assert text[..|Encoded(c)|] == Encoded(c);
    assert forall i :: 0 <= i < |Encoded(c)| ==> text[i] == Encoded(c)[i];
    hide FirstScalar;
    SpelledBack(c, text);
    FirstOf(text, c);
  }

  lemma FirstOf(text: seq<byte>, c: Scalar)
    requires text != [] && Spelled(text) == Some(c)
    requires |Encoded(c)| <= |text| && text[..|Encoded(c)|] == Encoded(c)
    ensures FirstScalar(text) == Some(c)
  {
    hide Spelled, Encoded;
  }

  lemma SpelledBack(c: Scalar, text: seq<byte>)
    requires |Encoded(c)| <= |text| && forall i :: 0 <= i < |Encoded(c)| ==> text[i] == Encoded(c)[i]
    ensures Spelled(text) == Some(c)
  {
    SixBits(c);
    SixBits(c / 0x40);
    SixBits(c / 0x1000);
    assert c / 0x40 / 0x40 == c / 0x1000 && c / 0x1000 / 0x40 == c / 0x4_0000;
  }

  lemma SixBits(c: nat)
    ensures c == c / 0x40 * 0x40 + c % 0x40
  {
  }

  function Scalars(text: seq<byte>): Option<seq<Scalar>> {
    if text == [] then Some([])
    else
      match FirstScalar(text)
      case None => None
      case Some(c) =>
        match Scalars(text[|Encoded(c)|..])
        case None => None
        case Some(rest) => Some([c] + rest)
  }

  lemma {:induction false} ScalarsOfText(scalars: seq<Scalar>)
    ensures Scalars(Text(scalars)) == Some(scalars)
  {
    hide Encoded, FirstScalar;
    if scalars == [] {
    } else {
      var rest := Text(scalars[1..]);
      FirstIsRead(scalars[0], rest);
      assert Text(scalars) == Encoded(scalars[0]) + rest;
      assert Text(scalars)[|Encoded(scalars[0])|..] == rest;
      ScalarsOfText(scalars[1..]);
      assert [scalars[0]] + scalars[1..] == scalars;
    }
  }
}

module NameEscapes {
  import opened Bytes
  import opened Outcomes

  type CodeUnit = u: int | 0 <= u < 0x1_0000

  const ESCAPE_SIGIL: byte := 0x25
  const UNIT_MARK: byte := 0x75

  function HexDigit(nibble: nat): byte
    requires nibble < 16
  {
    if nibble < 10 then 0x30 + nibble else 0x37 + nibble
  }

  predicate IsHexDigit(digit: int) {
    0x30 <= digit <= 0x39 || 0x41 <= digit <= 0x46
  }

  function HexValue(digit: int): nat
    requires IsHexDigit(digit)
  {
    if digit <= 0x39 then digit - 0x30 else digit - 0x37
  }

  lemma HexDigitRoundTrip(nibble: nat)
    requires nibble < 16
    ensures IsHexDigit(HexDigit(nibble)) && HexValue(HexDigit(nibble)) == nibble
  {
  }

  // `%XX` for a byte, `%uXXXX` for a UTF-16 code unit.
  function EscapedByte(raw: byte): seq<byte> {
    [ESCAPE_SIGIL, HexDigit(raw / 0x10), HexDigit(raw % 0x10)]
  }

  function EscapedUnit(unit: CodeUnit): seq<byte> {
    [ESCAPE_SIGIL, UNIT_MARK,
     HexDigit(unit / 0x1000), HexDigit(unit / 0x100 % 0x10), HexDigit(unit / 0x10 % 0x10), HexDigit(unit % 0x10)]
  }

  // The characters: `%` and two upper-case digits, or `%u` and four.
  lemma EscapesAre(raw: byte, unit: CodeUnit)
    ensures var digits := "0123456789ABCDEF";
            && EscapedByte(raw) == [0x25, digits[raw / 0x10] as int, digits[raw % 0x10] as int]
            && EscapedUnit(unit) == [0x25, 0x75, digits[unit / 0x1000] as int, digits[unit / 0x100 % 0x10] as int,
                                     digits[unit / 0x10 % 0x10] as int, digits[unit % 0x10] as int]
  {
    DigitIs(raw / 0x10);
    DigitIs(raw % 0x10);
    DigitIs(unit / 0x1000);
    DigitIs(unit / 0x100 % 0x10);
    DigitIs(unit / 0x10 % 0x10);
    DigitIs(unit % 0x10);
    hide HexDigit;
  }

  lemma DigitIs(nibble: nat)
    requires nibble < 16
    ensures HexDigit(nibble) == "0123456789ABCDEF"[nibble] as int
  {
  }

  datatype DecodedName = DecodedName(utf8: seq<byte>, lossless: bool)

  // The name a decoder accumulates, and whether every part of it so far survived
  // as itself.
  class DecodeState {
    var utf8: seq<byte>
    var lossless: bool

    function Name(): DecodedName reads this { DecodedName(utf8, lossless) }

    constructor ()
      ensures Name() == DecodedName([], true)
    {
      utf8, lossless := [], true;
    }

    method AppendVerbatim(sequence: seq<byte>)
      modifies this
      ensures Name() == DecodedName(old(utf8) + sequence, old(lossless))
    {
      for i := 0 to |sequence|
        invariant Name() == DecodedName(old(utf8) + sequence[..i], old(lossless))
      {
        utf8 := utf8 + [sequence[i]];
      }
      assert sequence[..|sequence|] == sequence;
    }

    method AppendEscapedByte(raw: byte)
      modifies this
      ensures Name() == DecodedName(old(utf8) + EscapedByte(raw), false)
    {
      utf8 := utf8 + [ESCAPE_SIGIL];
      utf8 := utf8 + [HexDigit(raw / 0x10)];
      utf8 := utf8 + [HexDigit(raw % 0x10)];
      lossless := false;
    }

    method AppendEscapedUnit(unit: CodeUnit)
      modifies this
      ensures Name() == DecodedName(old(utf8) + EscapedUnit(unit), false)
    {
      utf8 := utf8 + [ESCAPE_SIGIL];
      utf8 := utf8 + [UNIT_MARK];
      utf8 := utf8 + [HexDigit(unit / 0x1000)];
      utf8 := utf8 + [HexDigit(unit / 0x100 % 0x10)];
      utf8 := utf8 + [HexDigit(unit / 0x10 % 0x10)];
      utf8 := utf8 + [HexDigit(unit % 0x10)];
      lossless := false;
    }
  }
}
