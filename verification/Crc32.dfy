// Table-driven CRC-32, and the bit-at-a-time reflected division it stands for. A
// byte's eight divisions are one lookup because a division distributes over
// exclusive or, so the part of the remainder the byte meets and the part it does
// not can be divided apart and put together again.
module Crc {
  import opened Bytes

  const POLYNOMIAL: u32 := 0xEDB88320
  const INITIAL: u32 := 0xFFFFFFFF

  // ---- The machine's exclusive or, on values of any width ----

  predicate Odd(n: nat) {
    n % 2 == 1
  }

  function Half(n: nat): nat {
    n / 2
  }

  function Xor(a: nat, b: nat): nat
    decreases a + b
  {
    if a == 0 && b == 0 then 0
    else 2 * Xor(Half(a), Half(b)) + if Odd(a) != Odd(b) then 1 else 0
  }

  // A value is its low bit and the rest.
  lemma BitsDecide(a: nat, b: nat)
    requires Half(a) == Half(b) && Odd(a) == Odd(b)
    ensures a == b
  {
  }

  lemma HalfShrinks(n: nat)
    ensures n > 0 ==> Half(n) < n
    ensures Half(2 * n) == n && !Odd(2 * n)
  {
  }

  lemma XorBits(a: nat, b: nat)
    ensures Half(Xor(a, b)) == Xor(Half(a), Half(b))
    ensures Odd(Xor(a, b)) == (Odd(a) != Odd(b))
  {
  }

  lemma {:induction false} XorCommutes(a: nat, b: nat)
    ensures Xor(a, b) == Xor(b, a)
    decreases a + b
  {
    if a + b > 0 {
      XorCommutes(Half(a), Half(b));
    }
  }

  lemma {:induction false} XorZero(a: nat)
    ensures Xor(a, 0) == a
  {
    if a == 0 {
    } else {
      XorZero(Half(a));
    }
  }

  lemma {:induction false} XorSelf(a: nat)
    ensures Xor(a, a) == 0
  {
    if a == 0 {
    } else {
      XorSelf(Half(a));
    }
  }

  lemma {:induction false} XorAssociates(a: nat, b: nat, c: nat)
    ensures Xor(Xor(a, b), c) == Xor(a, Xor(b, c))
    decreases a + b + c
  {
    if a + b + c > 0 {
      hide Xor, Half, Odd;
      HalfShrinks(a);
      HalfShrinks(b);
      HalfShrinks(c);
      HalfOfZero();
      XorAssociates(Half(a), Half(b), Half(c));
      XorBits(a, b);
      XorBits(b, c);
      XorBits(Xor(a, b), c);
      XorBits(a, Xor(b, c));
      BitsDecide(Xor(Xor(a, b), c), Xor(a, Xor(b, c)));
    }
  }

  lemma HalfOfZero()
    ensures Half(0) == 0 && !Odd(0)
  {
  }

  // What is added twice cancels.
  lemma XorCancels(p: nat, c: nat, d: nat)
    ensures Xor(Xor(p, c), Xor(p, d)) == Xor(c, d)
  {
    hide Xor;
    XorCommutes(p, c);
    XorAssociates(c, p, Xor(p, d));
    XorAssociates(p, p, d);
    XorSelf(p);
    XorCommutes(0, d);
    XorZero(d);
  }

  lemma XorMoves(p: nat, c: nat, d: nat)
    ensures Xor(c, Xor(p, d)) == Xor(p, Xor(c, d))
  {
    hide Xor;
    XorAssociates(c, p, d);
    XorCommutes(p, c);
    XorAssociates(p, c, d);
  }

  lemma {:induction false} XorFits(a: nat, b: nat, bits: nat)
    requires a < Pow2(bits) && b < Pow2(bits)
    ensures Xor(a, b) < Pow2(bits)
  {
    if bits == 0 {
    } else {
      XorFits(Half(a), Half(b), bits - 1);
    }
  }

  function ShiftLeft(value: nat, bits: nat): nat {
    if bits == 0 then value else 2 * ShiftLeft(value, bits - 1)
  }

  lemma ShiftLeftByte(value: nat)
    ensures ShiftLeft(value, 8) == 0x100 * value
  {
    assert ShiftLeft(value, 1) == 2 * value;
    assert ShiftLeft(value, 2) == 4 * value;
    assert ShiftLeft(value, 4) == 0x10 * value;
    assert ShiftLeft(value, 6) == 0x40 * value;
  }

  // Values whose bits do not meet simply add up.
  lemma {:induction false} XorOfApart(low: nat, high: nat, bits: nat)
    requires low < Pow2(bits)
    ensures Xor(low, ShiftLeft(high, bits)) == low + ShiftLeft(high, bits)
  {
    if bits == 0 {
      XorCommutes(0, high);
      XorZero(high);
    } else {
      var rest := ShiftLeft(high, bits - 1);
      XorOfApart(Half(low), high, bits - 1);
      HalfShrinks(rest);
      XorBits(low, 2 * rest);
      hide Xor;
      BitsDecide(Xor(low, 2 * rest), low + 2 * rest);
    }
  }

  lemma ThirtyTwoBits()
    ensures Pow2(8) == 0x100 && Pow2(32) == U32_LIMIT
  {
    assert Pow2(8) == 0x100;
    assert Pow2(12) == 0x1000;
    assert Pow2(16) == 0x1_0000;
    assert Pow2(20) == 0x10_0000;
    assert Pow2(24) == 0x100_0000;
    assert Pow2(28) == 0x1000_0000;
  }

  function Xor32(a: u32, b: u32): u32 {
    ThirtyTwoBits();
    XorFits(a, b, 32);
    Xor(a, b)
  }

  // ---- The division ----

  // One bit of the reflected division: shift right, and subtract the polynomial
  // when a one is shifted out.
  function ShiftStep(value: u32): u32 {
    if Odd(value) then Xor32(POLYNOMIAL, Half(value)) else Half(value)
  }

  function Shifted(value: u32, bits: nat): u32
    decreases bits
  {
    if bits == 0 then value else Shifted(ShiftStep(value), bits - 1)
  }

  // The division over a message, a byte's bits at a time, least significant
  // first: the message byte is added in, then eight bits are shifted out.
  function Divided(crc: u32, data: seq<byte>): u32 {
    if data == [] then crc
    else Shifted(Xor32(Divided(crc, data[..|data| - 1]), data[|data| - 1]), 8)
  }

  // Section 3.4 of RFC 2083: preset to ones, divide, complement.
  function Reference(data: seq<byte>): u32 {
    Xor32(Divided(INITIAL, data), INITIAL)
  }

  // ---- Linearity ----

  lemma Xor32Is(a: u32, b: u32)
    ensures Xor32(a, b) == Xor(a, b)
  {
  }

  lemma ShiftStepIs(value: u32)
    ensures ShiftStep(value) == if Odd(value) then Xor(POLYNOMIAL, Half(value)) else Half(value)
  {
    hide Xor, Pow2;
  }

  // How one step acts on a sum, from the halves and the parities alone.
  lemma SumSteps(p: nat, a: nat, b: nat, sum: nat)
    requires sum == Xor(a, b)
    ensures (if Odd(sum) then Xor(p, Half(sum)) else Half(sum))
            == Xor(if Odd(a) then Xor(p, Half(a)) else Half(a), if Odd(b) then Xor(p, Half(b)) else Half(b))
  {
    XorBits(a, b);
    hide Xor, Half, Odd;
    var c, d := Half(a), Half(b);
    if Odd(a) && Odd(b) {
      XorCancels(p, c, d);
    } else if Odd(a) {
      XorAssociates(p, c, d);
    } else if Odd(b) {
      XorMoves(p, c, d);
    }
  }

  lemma ShiftStepIsLinear(a: u32, b: u32)
    ensures ShiftStep(Xor32(a, b)) == Xor32(ShiftStep(a), ShiftStep(b))
  {
    hide Xor, Xor32, ShiftStep;
    Xor32Is(a, b);
    Xor32Is(ShiftStep(a), ShiftStep(b));
    ShiftStepIs(a);
    ShiftStepIs(b);
    ShiftStepIs(Xor32(a, b));
    SumSteps(POLYNOMIAL, a, b, Xor32(a, b));
  }

  lemma {:induction false} ShiftedIsLinear(a: u32, b: u32, bits: nat)
    ensures Shifted(Xor32(a, b), bits) == Xor32(Shifted(a, bits), Shifted(b, bits))
    decreases bits
  {
    hide Xor32, ShiftStep;
    if bits == 0 {
    } else {
      ShiftStepIsLinear(a, b);
      ShiftedIsLinear(ShiftStep(a), ShiftStep(b), bits - 1);
    }
  }

  // With its low bits clear, a value is only shifted.
  lemma {:induction false} HighBitsOnlyMove(high: nat, bits: nat)
    requires ShiftLeft(high, bits) < U32_LIMIT
    ensures high < U32_LIMIT && Shifted(ShiftLeft(high, bits), bits) == high
  {
    if bits == 0 {
    } else {
      hide Xor32;
      var rest := ShiftLeft(high, bits - 1);
      HalfShrinks(rest);
      assert ShiftStep(2 * rest) == rest;
      HighBitsOnlyMove(high, bits - 1);
    }
  }

  // Eight bits of division are one table lookup: the low byte's own division,
  // added to what the rest merely moves down to.
  lemma ByteStep(value: u32)
    ensures Shifted(value, 8) == Xor32(Shifted(value % 0x100, 8), value / 0x100)
  {
    ThirtyTwoBits();
    var low: u32, high: u32 := value % 0x100, value / 0x100;
    hide Shifted, Xor;
    XorOfApart(low, high, 8);
    ShiftLeftByte(high);
    assert Xor32(low, 0x100 * high) == value;
    ShiftedIsLinear(low, 0x100 * high, 8);
    HighBitsOnlyMove(high, 8);
  }

  // ---- As it runs ----

  method TableEntry(index: u32) returns (value: u32)
    ensures value == Shifted(index, 8)
  {
    value := index;
    for bit := 0 to 8
      invariant Shifted(value, 8 - bit) == Shifted(index, 8)
    {
      value := ShiftStep(value);
    }
  }

  method MakeTable() returns (table: array<u32>)
    ensures fresh(table) && table.Length == 256
    ensures forall i :: 0 <= i < 256 ==> table[i] == Shifted(i, 8)
  {
    hide Shifted;
    table := new u32[256](_ => 0);
    for index := 0 to 256
      invariant forall i :: 0 <= i < index ==> table[i] == Shifted(i, 8)
    {
      var entry := TableEntry(index);
      table[index] := entry;
    }
  }

  lemma {:induction false} XorLowByte(crc: u32, value: byte)
    ensures Xor32(crc, value) % 0x100 == Xor32(crc % 0x100, value)
    ensures Xor32(crc, value) / 0x100 == crc / 0x100
  {
    ThirtyTwoBits();
    hide Xor;
    var low, high: nat := crc % 0x100, crc / 0x100;
    ShiftLeftByte(high);
    XorOfApart(low, high, 8);
    XorFits(low, value, 8);
    XorOfApart(Xor(low, value), high, 8);
    // crc ^ v == (low ^ high') ^ v == (low ^ v) ^ high'
    XorAssociates(low, 0x100 * high, value);
    XorCommutes(0x100 * high, value);
    XorAssociates(low, value, 0x100 * high);
  }

  lemma DividedStep(data: seq<byte>, i: nat)
    requires i < |data|
    ensures Divided(INITIAL, data[..i + 1]) == Shifted(Xor32(Divided(INITIAL, data[..i]), data[i]), 8)
  {
    assert data[..i + 1][..i] == data[..i];
  }

  // The table-driven loop computes the bit-at-a-time division of every message.
  method Crc32(data: seq<byte>) returns (crc: u32)
    ensures crc == Reference(data)
  {
    var table := MakeTable();
    hide Shifted, Xor32, Pow2;
    crc := INITIAL;
    for i := 0 to |data|
      invariant forall k :: 0 <= k < 256 ==> table[k] == Shifted(k, 8)
      invariant crc == Divided(INITIAL, data[..i])
    {
      ghost var before := crc;
      XorLowByte(crc, data[i]);
      ByteStep(Xor32(crc, data[i]));
      DividedStep(data, i);
      var index := Xor32(crc, data[i]) % 0x100;
      assert table[index] == Shifted(index, 8);
      crc := Xor32(table[index], crc / 0x100);
      assert crc == Shifted(Xor32(before, data[i]), 8);
    }
    assert data[..|data|] == data;
    crc := Xor32(crc, INITIAL);
  }
}
