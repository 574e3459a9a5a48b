/**
 * The 32-bit CRC register as a vector over GF(2): addition is exclusive or, and one step of the
 * reflected CRC-32 is a linear, one-to-one map. The bit-vector facts are kept here; the rest of
 * the project only uses the laws stated about `Add` and `Shift`.
 */
module Register {
  import opened Bytes

  const ONES: bv32 := 0xFFFF_FFFF

  datatype Word = Word(bits: bv32)

  const ZERO: Word := Word(0)
  const PRESET: Word := Word(ONES)

  function Xor(a: bv32, b: bv32): bv32 {
    a ^ b
  }

  function Add(a: Word, b: Word): Word {
    Word(Xor(a.bits, b.bits))
  }

  /** One step on the bits: drop the low one, and add the polynomial when it was set. */
  function ShiftBits(c: bv32): bv32 {
    if c & 1 == 1 then 0xEDB88320 ^ (c >> 1) else c >> 1
  }

  function Shift(c: Word): Word {
    Word(ShiftBits(c.bits))
  }

  function ShiftN(c: Word, n: nat): Word
    decreases n
  {
    if n == 0 then c else ShiftN(Shift(c), n - 1)
  }

  function OfByte(b: byte): Word {
    Word(b as bv32)
  }

  lemma LowBit(c: bv32)
    ensures c & 1 == 0 || c & 1 == 1
  {
  }

  /** The branch-free step of the firmware's inner loop is the conditional one. */
  lemma MaskedShift(c: bv32)
    ensures (c >> 1) ^ (0xEDB88320 & -(c & 1)) == ShiftBits(c)
  {
    LowBit(c);
    if c & 1 == 1 {
      assert 0xEDB88320 & -(1 as bv32) == 0xEDB88320;
      RawXorCommutes(c >> 1, 0xEDB88320);
    } else {
      assert 0xEDB88320 & -(0 as bv32) == 0;
      RawXorZero(c >> 1);
    }
  }

  lemma RawXorCommutes(a: bv32, b: bv32)
    ensures a ^ b == b ^ a
  {
  }

  lemma RawXorZero(a: bv32)
    ensures a ^ 0 == a
  {
  }

  // ---------- Addition ----------

  lemma XorAssociates(a: bv32, b: bv32, c: bv32)
    ensures Xor(Xor(a, b), c) == Xor(a, Xor(b, c))
  {
    RawXorAssociates(a, b, c);
  }

  lemma RawXorAssociates(a: bv32, b: bv32, c: bv32)
    ensures (a ^ b) ^ c == a ^ (b ^ c)
  {
  }

  lemma AddCommutes(a: Word, b: Word)
    ensures Add(a, b) == Add(b, a)
  {
  }

  lemma AddAssociates(a: Word, b: Word, c: Word)
    ensures Add(Add(a, b), c) == Add(a, Add(b, c))
  {
    hide Xor;
    XorAssociates(a.bits, b.bits, c.bits);
  }

  lemma AddZero(a: Word)
    ensures Add(a, ZERO) == a && Add(ZERO, a) == a
  {
  }

  lemma AddSelf(a: Word)
    ensures Add(a, a) == ZERO
  {
  }

  lemma AddCancels(a: Word, b: Word)
    ensures Add(a, b) == ZERO <==> a == b
  {
    hide Add;
    if Add(a, b) == ZERO {
      AddAssociates(a, b, b);
      AddSelf(b);
      AddZero(a);
      AddZero(b);
    }
    AddSelf(a);
  }

  lemma AddSwap(a: Word, b: Word, c: Word, d: Word)
    ensures Add(Add(a, b), Add(c, d)) == Add(Add(a, c), Add(b, d))
  {
    hide Add;
    AddAssociates(a, b, Add(c, d));
    AddAssociates(b, c, d);
    AddCommutes(b, c);
    AddAssociates(c, b, d);
    AddAssociates(a, c, Add(b, d));
  }

  lemma OfByteXor(x: byte, y: byte)
    ensures OfByte(x ^ y) == Add(OfByte(x), OfByte(y))
  {
  }

  // ---------- Shift is linear and one-to-one ----------

  lemma ShiftOddOdd(a: bv32, b: bv32)
    requires a & 1 == 1 && b & 1 == 1
    ensures ShiftBits(a ^ b) == ShiftBits(a) ^ ShiftBits(b)
  {
  }

  lemma ShiftOddEven(a: bv32, b: bv32)
    requires a & 1 == 1 && b & 1 == 0
    ensures ShiftBits(a ^ b) == ShiftBits(a) ^ ShiftBits(b)
  {
  }

  lemma ShiftEvenOdd(a: bv32, b: bv32)
    requires a & 1 == 0 && b & 1 == 1
    ensures ShiftBits(a ^ b) == ShiftBits(a) ^ ShiftBits(b)
  {
  }

  lemma ShiftEvenEven(a: bv32, b: bv32)
    requires a & 1 == 0 && b & 1 == 0
    ensures ShiftBits(a ^ b) == ShiftBits(a) ^ ShiftBits(b)
  {
  }

  lemma ShiftXor(a: bv32, b: bv32)
    ensures ShiftBits(Xor(a, b)) == Xor(ShiftBits(a), ShiftBits(b))
  {
    LowBit(a);
    LowBit(b);
    if a & 1 == 1 {
      if b & 1 == 1 { ShiftOddOdd(a, b); } else { ShiftOddEven(a, b); }
    } else {
      if b & 1 == 1 { ShiftEvenOdd(a, b); } else { ShiftEvenEven(a, b); }
    }
  }

  lemma ShiftAdd(a: Word, b: Word)
    ensures Shift(Add(a, b)) == Add(Shift(a), Shift(b))
  {
    hide Xor, ShiftBits;
    ShiftXor(a.bits, b.bits);
  }

  /** Only zero steps to zero, because the polynomial's top bit is set. */
  lemma ShiftBitsKernel(c: bv32)
    ensures ShiftBits(c) == 0 <==> c == 0
  {
  }

  lemma ShiftKernel(c: Word)
    ensures Shift(c) == ZERO <==> c == ZERO
  {
    hide ShiftBits;
    ShiftBitsKernel(c.bits);
  }

  lemma {:induction false} ShiftNAdd(a: Word, b: Word, n: nat)
    ensures ShiftN(Add(a, b), n) == Add(ShiftN(a, n), ShiftN(b, n))
    decreases n
  {
    hide Add, Shift;
    if n > 0 {
      ShiftAdd(a, b);
      ShiftNAdd(Shift(a), Shift(b), n - 1);
    }
  }

  lemma {:induction false} ShiftNKernel(c: Word, n: nat)
    ensures ShiftN(c, n) == ZERO <==> c == ZERO
    decreases n
  {
    hide Shift;
    if n > 0 {
      ShiftKernel(c);
      ShiftNKernel(Shift(c), n - 1);
    }
  }

  lemma {:induction false} ShiftNSplit(c: Word, m: nat, n: nat)
    ensures ShiftN(c, m + n) == ShiftN(ShiftN(c, m), n)
    decreases m
  {
    hide Shift;
    if m > 0 {
      ShiftNSplit(Shift(c), m - 1, n);
    }
  }

  lemma ShiftNInjective(u: Word, v: Word, n: nat)
    requires ShiftN(u, n) == ShiftN(v, n)
    ensures u == v
  {
    hide Add;
    ShiftNAdd(u, v, n);
    AddCancels(ShiftN(u, n), ShiftN(v, n));
    ShiftNKernel(Add(u, v), n);
    AddCancels(u, v);
  }

  // ---------- Registers with clear bits at one end ----------

  lemma EvenShift(c: bv32)
    requires c & 1 == 0
    ensures ShiftBits(c) == c >> 1
  {
  }

  lemma ShiftOutTwo(c: bv32)
    requires c & 3 == 0
    ensures ShiftN(Word(c), 2) == Word(c >> 2)
  {
    hide ShiftBits;
    EvenShift(c);
    EvenShift(c >> 1);
    assert (c >> 1) >> 1 == c >> 2;
    assert ShiftN(Word(c), 2) == ShiftN(Word(c >> 1), 1);
  }

  lemma ShiftOutFour(c: bv32)
    requires c & 0xF == 0
    ensures ShiftN(Word(c), 4) == Word(c >> 4)
  {
    hide Shift;
    ShiftOutTwo(c);
    ShiftNSplit(Word(c), 2, 2);
    assert (c >> 2) & 3 == 0;
    ShiftOutTwo(c >> 2);
    assert (c >> 2) >> 2 == c >> 4;
  }

  function ByteOutBits(c: bv32): bv32 {
    c >> 8
  }

  function ByteOut(c: Word): Word {
    Word(ByteOutBits(c.bits))
  }

  /** Eight steps of a register whose low byte is clear are a plain byte shift. */
  lemma ShiftOutByte(c: bv32)
    requires c & 0xFF == 0
    ensures ShiftN(Word(c), 8) == ByteOut(Word(c))
  {
    hide Shift;
    ShiftOutFour(c);
    ShiftNSplit(Word(c), 4, 4);
    assert (c >> 4) & 0xF == 0;
    ShiftOutFour(c >> 4);
    assert (c >> 4) >> 4 == c >> 8;
  }
}
