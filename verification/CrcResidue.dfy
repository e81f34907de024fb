// The residue of every message with its CRC, and the CRC of an IEND chunk.
module CrcResidue {
  import opened Bytes
  import opened Crc

  // ---- Computing a division on the machine's own bytes ----

  // A word, its bytes most significant first.
  datatype Word = Word(b3: bv8, b2: bv8, b1: bv8, b0: bv8)

  function Number(b: bv8): (n: nat)
    ensures n < 0x100
  {
    b as nat
  }

  function Join(high: nat, low: nat): nat {
    high * 0x100 + low
  }

  function Value(w: Word): u32 {
    Join(Join(Join(Number(w.b3), Number(w.b2)), Number(w.b1)), Number(w.b0))
  }

  function Added(a: Word, b: Word): Word {
    Word(a.b3 ^ b.b3, a.b2 ^ b.b2, a.b1 ^ b.b1, a.b0 ^ b.b0)
  }

  // Each byte shifted, the bit from the one above it shifted in.
  function Halved(w: Word): Word {
    Word(w.b3 >> 1, (w.b2 >> 1) | (w.b3 << 7), (w.b1 >> 1) | (w.b2 << 7), (w.b0 >> 1) | (w.b1 << 7))
  }

  function Step(w: Word): Word {
    if w.b0 & 1 == 1 then Added(Word(0xED, 0xB8, 0x83, 0x20), Halved(w)) else Halved(w)
  }

  function EightSteps(w: Word): Word {
    Step(Step(Step(Step(Step(Step(Step(Step(w))))))))
  }

  lemma ByteBits(b: bv8)
    ensures Number(b >> 1) == Number(b) / 2
    ensures b & 1 == 1 <==> Number(b) % 2 == 1
  {
  }

  lemma TopBit(x: bv8)
    requires x < 0x80
    ensures Number(x | 0x80) == Number(x) + 0x80
  {
    assert x | 0x80 == x + 0x80;
  }

  lemma CarryIs(low: bv8, high: bv8)
    ensures (low >> 1) | (high << 7) == if high & 1 == 1 then (low >> 1) | 0x80 else low >> 1
    ensures low >> 1 < 0x80
  {
  }

  lemma ShiftedIn(low: bv8, high: bv8)
    ensures Number((low >> 1) | (high << 7)) == Number(low) / 2 + 0x80 * (Number(high) % 2)
  {
    ByteBits(low);
    ByteBits(high);
    CarryIs(low, high);
    TopBit(low >> 1);
    hide Number;
  }

  lemma XorBitsOf(a: bv8, b: bv8)
    ensures (a ^ b) >> 1 == (a >> 1) ^ (b >> 1)
    ensures (a ^ b) & 1 == 1 <==> (a & 1 == 1) != (b & 1 == 1)
  {
  }

  lemma NumberOfZero(b: bv8)
    ensures Number(b) == 0 <==> b == 0
  {
  }

  lemma {:induction false} ByteXor(a: bv8, b: bv8)
    ensures Xor(Number(a), Number(b)) == Number(a ^ b)
    decreases Number(a) + Number(b)
  {
    NumberOfZero(a);
    NumberOfZero(b);
    ByteBits(a);
    ByteBits(b);
    ByteBits(a ^ b);
    XorBitsOf(a, b);
    hide Number;
    if Number(a) + Number(b) == 0 {
      assert a ^ b == 0;
    } else {
      ByteXor(a >> 1, b >> 1);
      XorBits(Number(a), Number(b));
      hide Xor;
      BitsDecide(Xor(Number(a), Number(b)), Number(a ^ b));
    }
  }

  lemma XorOfJoin(a: nat, b: nat, low: nat, other: nat)
    requires low < 0x100 && other < 0x100
    ensures Xor(Join(a, low), Join(b, other)) == Join(Xor(a, b), Xor(low, other))
  {
    ThirtyTwoBits();
    XorOfHalves(a, b, low, other, 8);
    ShiftLeftByte(a);
    ShiftLeftByte(b);
    ShiftLeftByte(Xor(a, b));
  }

  lemma {:induction false} XorOfHalves(a: nat, b: nat, low: nat, other: nat, bits: nat)
    requires low < Pow2(bits) && other < Pow2(bits)
    ensures Xor(ShiftLeft(a, bits) + low, ShiftLeft(b, bits) + other) == ShiftLeft(Xor(a, b), bits) + Xor(low, other)
    decreases bits
  {
    hide *;
    if bits == 0 {
      NothingShifted(a, b, low, other);
    } else {
      ShiftedOnce(a, low, bits);
      ShiftedOnce(b, other, bits);
      XorOfHalves(a, b, Half(low), Half(other), bits - 1);
      var x, y := ShiftLeft(a, bits) + low, ShiftLeft(b, bits) + other;
      XorBits(x, y);
      XorBits(low, other);
      ShiftedOnce(Xor(a, b), Xor(low, other), bits);
      BitsDecide(Xor(x, y), ShiftLeft(Xor(a, b), bits) + Xor(low, other));
    }
  }

  lemma NothingShifted(a: nat, b: nat, low: nat, other: nat)
    requires low < Pow2(0) && other < Pow2(0)
    ensures Xor(ShiftLeft(a, 0) + low, ShiftLeft(b, 0) + other) == ShiftLeft(Xor(a, b), 0) + Xor(low, other)
  {
    XorZero(0);
  }

  lemma ShiftedOnce(high: nat, low: nat, bits: nat)
    requires bits > 0
    ensures low < Pow2(bits) ==> Half(low) < Pow2(bits - 1)
    ensures Half(ShiftLeft(high, bits) + low) == ShiftLeft(high, bits - 1) + Half(low)
    ensures Odd(ShiftLeft(high, bits) + low) <==> Odd(low)
  {
    HalfOfSum(ShiftLeft(high, bits - 1), low);
  }

  lemma HalfOfSum(high: nat, low: nat)
    ensures Half(2 * high + low) == high + Half(low) && (Odd(2 * high + low) <==> Odd(low))
  {
  }

  lemma ValueIs(w: Word)
    ensures Value(w) == Join(Join(Join(Number(w.b3), Number(w.b2)), Number(w.b1)), Number(w.b0))
  {
  }

  lemma JoinedXor(a3: nat, a2: nat, a1: nat, a0: nat, b3: nat, b2: nat, b1: nat, b0: nat)
    requires a2 < 0x100 && a1 < 0x100 && a0 < 0x100 && b2 < 0x100 && b1 < 0x100 && b0 < 0x100
    ensures Xor(Join(Join(Join(a3, a2), a1), a0), Join(Join(Join(b3, b2), b1), b0))
            == Join(Join(Join(Xor(a3, b3), Xor(a2, b2)), Xor(a1, b1)), Xor(a0, b0))
  {
    hide Xor, Join;
    XorOfJoin(a3, b3, a2, b2);
    XorOfJoin(Join(a3, a2), Join(b3, b2), a1, b1);
    XorOfJoin(Join(Join(a3, a2), a1), Join(Join(b3, b2), b1), a0, b0);
  }

  lemma AddedBytes(a: Word, b: Word)
    ensures Number(Added(a, b).b3) == Xor(Number(a.b3), Number(b.b3))
    ensures Number(Added(a, b).b2) == Xor(Number(a.b2), Number(b.b2))
    ensures Number(Added(a, b).b1) == Xor(Number(a.b1), Number(b.b1))
    ensures Number(Added(a, b).b0) == Xor(Number(a.b0), Number(b.b0))
  {
    hide Xor, Number;
    ByteXor(a.b3, b.b3);
    ByteXor(a.b2, b.b2);
    ByteXor(a.b1, b.b1);
    ByteXor(a.b0, b.b0);
  }

  lemma AddedIs(a: Word, b: Word)
    ensures Xor(Value(a), Value(b)) == Value(Added(a, b))
  {
    hide Xor, Number, Join, Value, Added;
    ValueIs(a);
    ValueIs(b);
    ValueIs(Added(a, b));
    AddedBytes(a, b);
    JoinedXor(Number(a.b3), Number(a.b2), Number(a.b1), Number(a.b0),
              Number(b.b3), Number(b.b2), Number(b.b1), Number(b.b0));
  }

  // Halving a join: the high part's lowest bit comes down.
  lemma HalfOfJoin(high: nat, low: nat)
    ensures Join(high, low) / 2 == Join(high / 2, low / 2 + 0x80 * (high % 2))
    ensures Join(high, low) % 2 == low % 2
  {
  }

  lemma HalvedBytes(w: Word)
    ensures Number(Halved(w).b3) == Number(w.b3) / 2
    ensures Number(Halved(w).b2) == Number(w.b2) / 2 + 0x80 * (Number(w.b3) % 2)
    ensures Number(Halved(w).b1) == Number(w.b1) / 2 + 0x80 * (Number(w.b2) % 2)
    ensures Number(Halved(w).b0) == Number(w.b0) / 2 + 0x80 * (Number(w.b1) % 2)
    ensures w.b0 & 1 == 1 <==> Number(w.b0) % 2 == 1
  {
    ByteBits(w.b3);
    ByteBits(w.b0);
    ShiftedIn(w.b2, w.b3);
    ShiftedIn(w.b1, w.b2);
    ShiftedIn(w.b0, w.b1);
    hide Number;
  }

  lemma HalvedIs(w: Word)
    ensures Value(Halved(w)) == Value(w) / 2
    ensures w.b0 & 1 == 1 <==> Odd(Value(w))
  {
    hide Number, Join, Value, Halved;
    ValueIs(w);
    ValueIs(Halved(w));
    HalvedBytes(w);
    var top := Join(Number(w.b3), Number(w.b2));
    HalfOfJoin(Number(w.b3), Number(w.b2));
    HalfOfJoin(top, Number(w.b1));
    HalfOfJoin(Join(top, Number(w.b1)), Number(w.b0));
  }

  lemma StepIs(w: Word)
    ensures ShiftStep(Value(w)) == Value(Step(w))
  {
    HalvedIs(w);
    AddedIs(Word(0xED, 0xB8, 0x83, 0x20), Halved(w));
    PolynomialBytes();
    ShiftStepIs(Value(w));
    hide Xor, ShiftStep, Value, Halved, Added;
  }

  lemma PolynomialBytes()
    ensures Value(Word(0xED, 0xB8, 0x83, 0x20)) == POLYNOMIAL
  {
  }

  lemma EightStepsAre(w: Word)
    ensures Shifted(Value(w), 8) == Value(EightSteps(w))
  {
    hide ShiftStep, Value, Step;
    var w1 := Step(w);
    var w2 := Step(w1);
    var w3 := Step(w2);
    var w4 := Step(w3);
    StepIs(w);
    StepIs(w1);
    StepIs(w2);
    StepIs(w3);
    StepIs(w4);
    StepIs(Step(w4));
    StepIs(Step(Step(w4)));
    StepIs(Step(Step(Step(w4))));
    assert Shifted(Value(w4), 4) == Value(EightSteps(w));
    assert Shifted(Value(w), 8) == Shifted(Value(w4), 4);
  }

  lemma {:induction false} ShiftedJoins(value: u32, a: nat, b: nat)
    ensures Shifted(value, a + b) == Shifted(Shifted(value, a), b)
    decreases a
  {
    hide ShiftStep;
    if a == 0 {
    } else {
      ShiftedJoins(ShiftStep(value), a - 1, b);
    }
  }

  lemma ThirtyTwoSteps(w: Word)
    ensures Shifted(Value(w), 32) == Value(EightSteps(EightSteps(EightSteps(EightSteps(w)))))
  {
    hide Value, EightSteps;
    EightStepsAre(w);
    EightStepsAre(EightSteps(w));
    EightStepsAre(EightSteps(EightSteps(w)));
    EightStepsAre(EightSteps(EightSteps(EightSteps(w))));
    hide Shifted;
    ShiftedJoins(Value(w), 8, 24);
    ShiftedJoins(Value(EightSteps(w)), 8, 16);
    ShiftedJoins(Value(EightSteps(EightSteps(w))), 8, 8);
  }

  lemma OnesStepped()
    ensures EightSteps(Word(0xFF, 0xFF, 0xFF, 0xFF)) == Word(0x2D, 0xFD, 0x10, 0x72)
    ensures EightSteps(Word(0x2D, 0xFD, 0x10, 0x72)) == Word(0xBE, 0x26, 0xED, 0x00)
    ensures EightSteps(Word(0xBE, 0x26, 0xED, 0x00)) == Word(0x00, 0xBE, 0x26, 0xED)
    ensures EightSteps(Word(0x00, 0xBE, 0x26, 0xED)) == Word(0xDE, 0xBB, 0x20, 0xE3)
  {
  }

  lemma IendStepped()
    ensures EightSteps(Word(0xBB, 0xB1, 0xBA, 0xB6)) == Word(0x22, 0xB9, 0xA7, 0x03)
    ensures EightSteps(Word(0x22, 0xB9, 0xA7, 0x03)) == Word(0x99, 0x2B, 0xE8, 0x1D)
    ensures EightSteps(Word(0x99, 0x2B, 0xE8, 0x1D)) == Word(0x63, 0x9F, 0x47, 0x31)
    ensures EightSteps(Word(0x63, 0x9F, 0x47, 0x31)) == Word(0x51, 0xBD, 0x9F, 0x7D)
  {
  }

  // Thirty-two ones, divided to the end.
  lemma OnesDivided()
    ensures Shifted(0xFFFF_FFFF, 32) == 0xDEBB_20E3
  {
    assert Value(Word(0xFF, 0xFF, 0xFF, 0xFF)) == 0xFFFF_FFFF;
    assert Value(Word(0xDE, 0xBB, 0x20, 0xE3)) == 0xDEBB_20E3;
    hide Shifted, Step, Value;
    ThirtyTwoSteps(Word(0xFF, 0xFF, 0xFF, 0xFF));
    hide EightSteps;
    OnesStepped();
  }

  // What is left of ones and the four letters of IEND.
  lemma IendDivided()
    ensures Shifted(0xBBB1_BAB6, 32) == 0x51BD_9F7D
  {
    assert Value(Word(0xBB, 0xB1, 0xBA, 0xB6)) == 0xBBB1_BAB6;
    assert Value(Word(0x51, 0xBD, 0x9F, 0x7D)) == 0x51BD_9F7D;
    hide Shifted, Step, Value;
    ThirtyTwoSteps(Word(0xBB, 0xB1, 0xBA, 0xB6));
    hide EightSteps;
    IendStepped();
  }

  // ---- A word fed in, least significant byte first ----

  lemma {:induction false} DividedJoins(crc: u32, a: seq<byte>, b: seq<byte>)
    ensures Divided(crc, a + b) == Divided(Divided(crc, a), b)
    decreases |b|
  {
    hide Shifted, Xor32;
    if b == [] {
      assert a + b == a;
    } else {
      assert (a + b)[..|a + b| - 1] == a + b[..|b| - 1];
      DividedJoins(crc, a, b[..|b| - 1]);
    }
  }

  // The low byte divided out of a sum, and the rest still to come.
  lemma LowByteFed(crc: u32, word: u32)
    ensures Shifted(Xor32(crc, word), 8) == Xor32(Shifted(Xor32(crc, word % 0x100), 8), word / 0x100)
  {
    ThirtyTwoBits();
    var low: u32, high: u32 := word % 0x100, word / 0x100;
    var above: u32 := 0x100 * high;
    ShiftLeftByte(high);
    hide Shifted, Xor;
    XorOfApart(low, high, 8);
    Xor32Is(low, above);
    assert Xor32(low, above) == word;
    SumAssociates(crc, low, above);
    hide Xor32;
    ShiftedIsLinear(Xor32(crc, low), above, 8);
    HighBitsOnlyMove(high, 8);
  }

  lemma SumAssociates(a: u32, b: u32, c: u32)
    ensures Xor32(a, Xor32(b, c)) == Xor32(Xor32(a, b), c)
  {
    XorAssociates(a, b, c);
    hide Xor;
  }

  lemma OneByteFed(crc: u32, value: byte)
    ensures Divided(crc, [value]) == Shifted(Xor32(crc, value), 8)
  {
    assert [value][..0] == [];
    assert Divided(crc, []) == crc;
    hide Shifted, Xor32;
  }

  // Feeding a word is adding it in and dividing it all out.
  lemma {:induction false} WordFed(crc: u32, word: u32, width: nat)
    requires word < Capacity(width)
    ensures Divided(crc, LittleEndian(word, width)) == Shifted(Xor32(crc, word), 8 * width)
    decreases width
  {
    hide *;
    if width == 0 {
      NothingFed(crc, word);
    } else {
      var first: byte, rest: u32 := word % 0x100, word / 0x100;
      LowByteFirst(word, width);
      DividedJoins(crc, [first], LittleEndian(rest, width - 1));
      OneByteFed(crc, first);
      WordFed(Divided(crc, [first]), rest, width - 1);
      LowByteFed(crc, word);
      ShiftedJoins(Xor32(crc, word), 8, 8 * (width - 1));
    }
  }

  lemma LowByteFirst(word: u32, width: nat)
    requires width > 0 && word < Capacity(width)
    ensures LittleEndian(word, width) == [word % 0x100] + LittleEndian(word / 0x100, width - 1)
    ensures word / 0x100 < Capacity(width - 1)
  {
  }

  lemma NothingFed(crc: u32, word: u32)
    requires word < Capacity(0)
    ensures Divided(crc, LittleEndian(word, 0)) == Shifted(Xor32(crc, word), 0)
  {
    assert LittleEndian(word, 0) == [];
    Xor32Is(crc, 0);
    XorZero(crc);
    hide Xor;
  }

  lemma SumOfComplement(crc: u32)
    ensures Xor32(crc, Xor32(crc, INITIAL)) == 0xFFFF_FFFF
  {
    XorAssociates(crc, crc, INITIAL);
    XorSelf(crc);
    XorCommutes(0, INITIAL);
    XorZero(INITIAL);
    hide Xor;
  }

  // Dividing any message followed by its CRC, least significant byte first,
  // leaves one and the same number.
  lemma ResidueIsConstant(message: seq<byte>)
    ensures Divided(0xFFFF_FFFF, message + LittleEndian(Reference(message), 4)) == 0xDEBB_20E3
  {
    var crc := Divided(INITIAL, message);
    CapacityOfFields();
    hide Xor32, Shifted, LittleEndian;
    DividedJoins(INITIAL, message, LittleEndian(Reference(message), 4));
    WordFed(crc, Reference(message), 4);
    SumOfComplement(crc);
    OnesDivided();
  }

  // The letters of IEND, read as a little-endian word.
  lemma IendLetters()
    ensures LittleEndian(0x444E_4549, 4) == [0x49, 0x45, 0x4E, 0x44]
  {
    assert LittleEndian(0x44, 1) == [0x44];
    assert LittleEndian(0x444E, 2) == [0x4E] + LittleEndian(0x44, 1);
    assert LittleEndian(0x44_4E45, 3) == [0x45] + LittleEndian(0x444E, 2);
  }

  lemma IendAdded()
    ensures Xor32(0xFFFF_FFFF, 0x444E_4549) == 0xBBB1_BAB6
  {
    var ones, letters := Word(0xFF, 0xFF, 0xFF, 0xFF), Word(0x44, 0x4E, 0x45, 0x49);
    assert Value(ones) == 0xFFFF_FFFF && Value(letters) == 0x444E_4549;
    assert Added(ones, letters) == Word(0xBB, 0xB1, 0xBA, 0xB6);
    assert Value(Word(0xBB, 0xB1, 0xBA, 0xB6)) == 0xBBB1_BAB6;
    hide Value, Xor;
    AddedIs(ones, letters);
  }

  lemma IendComplemented()
    ensures Xor32(0x51BD_9F7D, 0xFFFF_FFFF) == 0xAE42_6082
  {
    var ones, left := Word(0xFF, 0xFF, 0xFF, 0xFF), Word(0x51, 0xBD, 0x9F, 0x7D);
    assert Value(ones) == 0xFFFF_FFFF && Value(left) == 0x51BD_9F7D;
    assert Added(left, ones) == Word(0xAE, 0x42, 0x60, 0x82);
    assert Value(Word(0xAE, 0x42, 0x60, 0x82)) == 0xAE42_6082;
    hide Value, Xor;
    AddedIs(left, ones);
  }

  lemma CrcOfIend()
    ensures Reference([0x49, 0x45, 0x4E, 0x44]) == 0xAE42_6082
  {
    CapacityOfFields();
    IendLetters();
    hide Xor32, Shifted, LittleEndian;
    WordFed(INITIAL, 0x444E_4549, 4);
    IendAdded();
    IendDivided();
    IendComplemented();
  }

  // No message has no CRC bits: the complement undoes the preset.
  lemma CrcOfNothing()
    ensures Reference([]) == 0
  {
    XorSelf(INITIAL);
    hide Xor;
  }
}
