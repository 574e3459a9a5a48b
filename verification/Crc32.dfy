/**
 * The frame CRC: a bit-by-bit reflected CRC-32 over the polynomial 0xEDB88320, its linear
 * algebra over GF(2), and its agreement with the table-driven CRC of RFC 1952 section 8.
 */
module Crc32 {
  import opened Bytes
  import opened Register

  function Absorb(c: Word, b: byte): Word {
    ShiftN(Add(c, OfByte(b)), 8)
  }

  function Fold(c: Word, data: seq<byte>): Word {
    if |data| == 0 then c
    else Absorb(Fold(c, data[..|data| - 1]), data[|data| - 1])
  }

  function Crc(data: seq<byte>): Word {
    Add(Fold(PRESET, data), PRESET)
  }

  /** The firmware's nested loops. */
  method ComputeCrc32(data: seq<byte>) returns (crc: bv32)
    ensures Word(crc) == Crc(data)
  {
    hide Add, ShiftBits;
    crc := ONES;
    for i := 0 to |data|
      invariant Word(crc) == Fold(PRESET, data[..i])
    {
      assert data[..i + 1][..i] == data[..i];
      XorIsAdd(crc, data[i] as bv32);
      crc := crc ^ (data[i] as bv32);
      ghost var absorbed := Word(crc);
      for j := 0 to 8
        invariant ShiftN(Word(crc), 8 - j) == ShiftN(absorbed, 8)
      {
        MaskedShift(crc);
        crc := (crc >> 1) ^ (0xEDB88320 & -(crc & 1));
      }
    }
    assert data[..|data|] == data;
    XorIsAdd(crc, ONES);
    crc := crc ^ ONES;
  }

  lemma XorIsAdd(a: bv32, b: bv32)
    ensures Word(a ^ b) == Add(Word(a), Word(b))
  {
  }

  // ---------- Fold ----------

  lemma {:induction false} FoldConcat(c: Word, a: seq<byte>, b: seq<byte>)
    ensures Fold(c, a + b) == Fold(Fold(c, a), b)
  {
    if |b| == 0 {
      assert a + b == a;
    } else {
      var n := |b| - 1;
      assert (a + b)[..|a + b| - 1] == a + b[..n];
      FoldConcat(c, a, b[..n]);
    }
  }

  function XorBytes(a: seq<byte>, b: seq<byte>): (c: seq<byte>)
    requires |a| == |b|
    ensures |c| == |a|
  {
    seq(|a|, i requires 0 <= i < |a| => a[i] ^ b[i])
  }

  /** The whole fold is linear in the register and the data together. */
  lemma {:induction false} FoldXor(c: Word, d: Word, a: seq<byte>, b: seq<byte>)
    requires |a| == |b|
    ensures Fold(Add(c, d), XorBytes(a, b)) == Add(Fold(c, a), Fold(d, b))
  {
    hide Add;
    if |a| > 0 {
      var n := |a| - 1;
      assert XorBytes(a, b)[..n] == XorBytes(a[..n], b[..n]);
      FoldXor(c, d, a[..n], b[..n]);
      var fa, fb := Fold(c, a[..n]), Fold(d, b[..n]);
      OfByteXor(a[n], b[n]);
      AddSwap(fa, fb, OfByte(a[n]), OfByte(b[n]));
      ShiftNAdd(Add(fa, OfByte(a[n])), Add(fb, OfByte(b[n])), 8);
    }
  }

  /** A start register only contributes itself, advanced by eight zero bits a byte. */
  lemma {:induction false} FoldSplit(c: Word, data: seq<byte>)
    ensures Fold(c, data) == Add(ShiftN(c, 8 * |data|), Fold(ZERO, data))
  {
    hide Add;
    if |data| == 0 {
      AddZero(c);
    } else {
      var n := |data| - 1;
      var s, f, b := ShiftN(c, 8 * n), Fold(ZERO, data[..n]), OfByte(data[n]);
      FoldSplit(c, data[..n]);
      AddAssociates(s, f, b);
      ShiftNAdd(s, Add(f, b), 8);
      ShiftNSplit(c, 8 * n, 8);
    }
  }

  // ---------- Main results on the CRC ----------

  /** The CRC of a concatenation: the first CRC advances by eight zero bits for each byte of the second. */
  lemma CrcConcat(a: seq<byte>, b: seq<byte>)
    ensures Crc(a + b) == Add(Crc(b), ShiftN(Crc(a), 8 * |b|))
  {
    hide Add;
    var n := 8 * |b|;
    var ra := Fold(PRESET, a);
    FoldConcat(PRESET, a, b);
    FoldSplit(ra, b);
    FoldSplit(PRESET, b);
    ShiftNAdd(ra, PRESET, n);
    CancelTwice(ShiftN(ra, n), ShiftN(PRESET, n), Fold(ZERO, b), PRESET);
  }

  lemma CancelTwice(x: Word, y: Word, f: Word, p: Word)
    ensures Add(Add(x, f), p) == Add(Add(Add(y, f), p), Add(x, y))
  {
    hide Add;
    var g := Add(f, p);
    AddAssociates(x, f, p);
    AddAssociates(y, f, p);
    AddCommutes(y, g);
    AddCommutes(x, y);
    AddAssociates(g, y, Add(y, x));
    AddAssociates(y, y, x);
    AddSelf(y);
    AddZero(x);
    AddCommutes(g, x);
  }

  /** The CRC is affine: on equal lengths it commutes with the exclusive or of three messages. */
  lemma CrcAffine(a: seq<byte>, b: seq<byte>, c: seq<byte>)
    requires |a| == |b| == |c|
    ensures Add(Add(Crc(a), Crc(b)), Crc(c)) == Crc(XorBytes(XorBytes(a, b), c))
  {
    hide Add;
    FoldXor(PRESET, PRESET, a, b);
    FoldXor(Add(PRESET, PRESET), PRESET, XorBytes(a, b), c);
    AddSelf(PRESET);
    AddZero(PRESET);
    ThreePresets(Fold(PRESET, a), Fold(PRESET, b), Fold(PRESET, c), PRESET);
  }

  lemma ThreePresets(x: Word, y: Word, z: Word, p: Word)
    ensures Add(Add(Add(x, p), Add(y, p)), Add(z, p)) == Add(Add(Add(x, y), z), p)
  {
    hide Add;
    AddSwap(x, p, y, p);
    AddSelf(p);
    AddZero(Add(x, y));
    AddAssociates(Add(x, y), z, p);
  }

  // ---------- The register by whole bytes ----------

  function TableIndex(c: Word, b: byte): byte {
    ((c.bits ^ (b as bv32)) & 0xFF) as byte
  }

  /** The register with the byte added, without its low eight bits. */
  function HighBits(c: bv32, b: byte): bv32 {
    (c ^ (b as bv32)) & 0xFFFF_FF00
  }

  function HighPart(c: Word, b: byte): Word {
    Word(HighBits(c.bits, b))
  }

  lemma SplitLowByte(c: bv32, b: byte)
    ensures var x := c ^ (b as bv32);
            x == (x & 0xFF) ^ (x & 0xFFFF_FF00) && ((x & 0xFF) as byte) as bv32 == x & 0xFF
  {
  }

  lemma LowByteClear(c: bv32, b: byte)
    ensures HighBits(c, b) & 0xFF == 0
  {
  }

  lemma SameByteOut(c: bv32, b: byte)
    ensures ByteOutBits(HighBits(c, b)) == ByteOutBits(c)
  {
  }

  lemma SplitIndex(c: Word, b: byte)
    ensures Add(c, OfByte(b)) == Add(OfByte(TableIndex(c, b)), HighPart(c, b))
  {
    SplitLowByte(c.bits, b);
  }

  lemma ShiftOutHigh(c: Word, b: byte)
    ensures ShiftN(HighPart(c, b), 8) == ByteOut(c)
  {
    hide ShiftN, HighBits, ByteOut;
    LowByteClear(c.bits, b);
    ShiftOutByte(HighBits(c.bits, b));
    HighPartOut(c, b);
  }

  lemma HighPartOut(c: Word, b: byte)
    ensures ByteOut(HighPart(c, b)) == ByteOut(c)
  {
    hide HighBits, ByteOutBits;
    SameByteOut(c.bits, b);
  }

  /** Absorbing a byte is one table look-up and a byte shift. */
  lemma AbsorbByTable(c: Word, b: byte)
    ensures Absorb(c, b) == Add(ShiftN(OfByte(TableIndex(c, b)), 8), ByteOut(c))
  {
    hide Add, Shift, TableIndex, OfByte, HighPart, ByteOut;
    SplitIndex(c, b);
    ShiftNAdd(OfByte(TableIndex(c, b)), HighPart(c, b), 8);
    ShiftOutHigh(c, b);
  }

  // ---------- The table-driven CRC of RFC 1952, section 8 ----------
  // Written out as that document has it, with its own constants.

  /** The inner loop of make_crc_table, `k` times. */
  function RfcSteps(c: bv32, k: nat): bv32
    decreases k
  {
    if k == 0 then c else RfcSteps(if c & 1 == 1 then 0xEDB88320 ^ (c >> 1) else c >> 1, k - 1)
  }

  /** Entry `n` of crc_table. */
  function RfcTable(n: byte): bv32 {
    RfcSteps(n as bv32, 8)
  }

  function RfcIndex(c: bv32, b: byte): byte {
    ((c ^ (b as bv32)) & 0xFF) as byte
  }

  function RfcMix(entry: bv32, c: bv32): bv32 {
    entry ^ (c >> 8)
  }

  /** One turn of the loop of update_crc. */
  function RfcNext(c: bv32, b: byte): bv32 {
    RfcMix(RfcTable(RfcIndex(c, b)), c)
  }

  function RfcLoop(c: bv32, data: seq<byte>): bv32
    decreases |data|
  {
    if |data| == 0 then c else RfcLoop(RfcNext(c, data[0]), data[1..])
  }

  /** update_crc, and crc as its call on a zero value. */
  function RfcUpdate(crc: bv32, data: seq<byte>): bv32 {
    RfcLoop(crc ^ 0xFFFF_FFFF, data) ^ 0xFFFF_FFFF
  }

  function RfcCrc(data: seq<byte>): bv32 {
    RfcUpdate(0, data)
  }

  lemma RfcStepIsShift(c: bv32)
    ensures (if c & 1 == 1 then 0xEDB88320 ^ (c >> 1) else c >> 1) == ShiftBits(c)
  {
  }

  lemma {:induction false} RfcStepsAreShifts(c: bv32, k: nat)
    ensures Word(RfcSteps(c, k)) == ShiftN(Word(c), k)
    decreases k
  {
    hide ShiftBits;
    if k > 0 {
      RfcStepIsShift(c);
      RfcStepsAreShifts(ShiftBits(c), k - 1);
    }
  }

  lemma RfcEntry(n: byte)
    ensures Word(RfcTable(n)) == ShiftN(OfByte(n), 8)
  {
    hide ShiftN, RfcSteps;
    RfcStepsAreShifts(n as bv32, 8);
  }

  lemma SameIndex(c: bv32, b: byte)
    ensures RfcIndex(c, b) == TableIndex(Word(c), b)
  {
  }

  lemma MixIsSum(entry: bv32, c: bv32)
    ensures Word(RfcMix(entry, c)) == Add(Word(entry), ByteOut(Word(c)))
  {
  }

  lemma RfcByte(c: bv32, b: byte)
    ensures Word(RfcNext(c, b)) == Absorb(Word(c), b)
  {
    hide Add, ShiftN, Absorb, RfcMix, RfcTable, RfcIndex, TableIndex, OfByte, ByteOut;
    SameIndex(c, b);
    AbsorbByTable(Word(c), b);
    RfcEntry(TableIndex(Word(c), b));
    MixIsSum(RfcTable(RfcIndex(c, b)), c);
  }

  lemma {:induction false} RfcLoopIsFold(c: bv32, data: seq<byte>)
    ensures Word(RfcLoop(c, data)) == Fold(Word(c), data)
    decreases |data|
  {
    hide Absorb, RfcNext;
    if |data| > 0 {
      RfcByte(c, data[0]);
      assert data == [data[0]] + data[1..];
      FoldConcat(Word(c), [data[0]], data[1..]);
      assert Fold(Word(c), [data[0]]) == Absorb(Word(c), data[0]);
      RfcLoopIsFold(RfcNext(c, data[0]), data[1..]);
    }
  }

  /** The firmware's bitwise CRC is the CRC of RFC 1952 on every byte string. */
  lemma CrcIsRfc1952(data: seq<byte>)
    ensures Crc(data) == Word(RfcCrc(data))
  {
    hide Add, RfcLoop, Fold;
    PresetIsAllOnes();
    RfcLoopIsFold(0xFFFF_FFFF, data);
    XorIsAdd(RfcLoop(0xFFFF_FFFF, data), 0xFFFF_FFFF);
  }

  lemma PresetIsAllOnes()
    ensures PRESET == Word(0xFFFF_FFFF) && 0 ^ (0xFFFF_FFFF as bv32) == 0xFFFF_FFFF
  {
  }

  lemma LoopAt(c: bv32, data: seq<byte>, i: nat)
    requires i < |data|
    ensures RfcLoop(c, data[i..]) == RfcLoop(RfcNext(c, data[i]), data[i + 1..])
  {
    hide RfcNext;
    assert data[i..][1..] == data[i + 1..];
  }

  lemma CheckTurns()
    ensures RfcNext(0xFFFF_FFFF, 0x31) == 0x7C23_1048
    ensures RfcNext(0x7C23_1048, 0x32) == 0xB0AC_BB32
    ensures RfcNext(0xB0AC_BB32, 0x33) == 0x77B7_9C2D
    ensures RfcNext(0x77B7_9C2D, 0x34) == 0x641C_1F5C
    ensures RfcNext(0x641C_1F5C, 0x35) == 0x340A_C5E3
    ensures RfcNext(0x340A_C5E3, 0x36) == 0xF68D_2C9E
    ensures RfcNext(0xF68D_2C9E, 0x37) == 0xAFFC_9660
    ensures RfcNext(0xAFFC_9660, 0x38) == 0x651F_2550
    ensures RfcNext(0x651F_2550, 0x39) == 0x340B_C6D9
  {
  }

  /** The digits "123456789". */
  const NINE_DIGITS: seq<byte> := [0x31, 0x32, 0x33, 0x34, 0x35, 0x36, 0x37, 0x38, 0x39]

  /** The check value that catalogues of CRCs give for this one. */
  lemma CheckValue()
    ensures Crc(NINE_DIGITS) == Word(0xCBF4_3926)
  {
    hide Add, Fold, RfcNext, RfcLoop;
    CrcIsRfc1952(NINE_DIGITS);
    CheckTurns();
    assert NINE_DIGITS[0..] == NINE_DIGITS;
    LoopAt(0xFFFF_FFFF, NINE_DIGITS, 0);
    LoopAt(0x7C23_1048, NINE_DIGITS, 1);
    LoopAt(0xB0AC_BB32, NINE_DIGITS, 2);
    LoopAt(0x77B7_9C2D, NINE_DIGITS, 3);
    LoopAt(0x641C_1F5C, NINE_DIGITS, 4);
    LoopAt(0x340A_C5E3, NINE_DIGITS, 5);
    LoopAt(0xF68D_2C9E, NINE_DIGITS, 6);
    LoopAt(0xAFFC_9660, NINE_DIGITS, 7);
    LoopAt(0x651F_2550, NINE_DIGITS, 8);
    assert NINE_DIGITS[9..] == [];
    EmptyLoop(0x340B_C6D9);
    assert 0x340B_C6D9 ^ 0xFFFF_FFFF == (0xCBF4_3926 as bv32);
  }

  lemma EmptyLoop(c: bv32)
    ensures RfcLoop(c, []) == c
  {
  }
}
