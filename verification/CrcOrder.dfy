/**
 * How long the register runs before a nonzero value comes back. The CRC's polynomial is such that
 * no nonzero value returns within the bits of one payload, which settles on exactly which frames
 * the firmware's checksum agrees with the one its protocol header documents.
 */
module CrcOrder {
  import opened Bytes
  import opened Register
  import opened Crc32
  import opened CrcBurst
  import opened Framing

  // ---------- Polynomials in the step, as bit lists ----------

  /** The sum of ShiftN(u, n - i) over the bits i that are set, n being the number of bits. */
  function Poly(bits: seq<bool>, u: Word): Word
    decreases |bits|
  {
    if |bits| == 0 then ZERO
    else Add(if bits[0] then ShiftN(u, |bits|) else ZERO, Poly(bits[1..], u))
  }

  lemma ShiftNZero(n: nat)
    ensures ShiftN(ZERO, n) == ZERO
  {
    ShiftNKernel(ZERO, n);
  }

  lemma {:induction false} PolyAdd(bits: seq<bool>, u: Word, v: Word)
    ensures Poly(bits, Add(u, v)) == Add(Poly(bits, u), Poly(bits, v))
    decreases |bits|
  {
    hide Add, ShiftN;
    if |bits| == 0 {
      AddZero(ZERO);
    } else {
      var n := |bits|;
      PolyAdd(bits[1..], u, v);
      if bits[0] {
        ShiftNAdd(u, v, n);
      } else {
        AddZero(ZERO);
      }
      AddSwap(if bits[0] then ShiftN(u, n) else ZERO, if bits[0] then ShiftN(v, n) else ZERO,
              Poly(bits[1..], u), Poly(bits[1..], v));
    }
  }

  lemma {:induction false} PolyZero(bits: seq<bool>)
    ensures Poly(bits, ZERO) == ZERO
    decreases |bits|
  {
    hide Add, ShiftN;
    if |bits| > 0 {
      PolyZero(bits[1..]);
      ShiftNZero(|bits|);
      AddZero(ZERO);
    }
  }

  lemma ShiftNSwap(u: Word, m: nat, n: nat)
    ensures ShiftN(ShiftN(u, m), n) == ShiftN(ShiftN(u, n), m)
  {
    hide ShiftN;
    ShiftNSplit(u, m, n);
    ShiftNSplit(u, n, m);
  }

  lemma {:induction false} PolyShift(bits: seq<bool>, u: Word, k: nat)
    ensures Poly(bits, ShiftN(u, k)) == ShiftN(Poly(bits, u), k)
    decreases |bits|
  {
    hide Add, ShiftN;
    ShiftNZero(k);
    if |bits| > 0 {
      var head := if bits[0] then ShiftN(u, |bits|) else ZERO;
      PolyShift(bits[1..], u, k);
      ShiftNSwap(u, k, |bits|);
      ShiftNAdd(head, Poly(bits[1..], u), k);
    }
  }

  /** Polynomials in the same step commute. */
  lemma {:induction false} PolyCommute(a: seq<bool>, b: seq<bool>, u: Word)
    ensures Poly(a, Poly(b, u)) == Poly(b, Poly(a, u))
    decreases |a|
  {
    hide Add, ShiftN;
    PolyZero(b);
    if |a| > 0 {
      var head := if a[0] then ShiftN(u, |a|) else ZERO;
      PolyCommute(a[1..], b, u);
      PolyShift(b, u, |a|);
      PolyAdd(b, head, Poly(a[1..], u));
    }
  }

  // ---------- Every word comes from the generator ----------

  const GENERATOR: Word := Word(1)

  function WordBits(x: bv32, n: nat): (s: seq<bool>)
    ensures |s| == n
    decreases n
  {
    if n == 0 then [] else [x & 1 != 0] + WordBits(x >> 1, n - 1)
  }

  predicate FitsWord(x: bv32, n: nat)
    decreases n
  {
    if n == 0 then x == 0 else FitsWord(x >> 1, n - 1)
  }

  function Drop4(p: bv32): bv32 {
    p >> 4
  }

  function Drop16(p: bv32): bv32 {
    Drop4(Drop4(Drop4(Drop4(p))))
  }

  lemma FitsFour(x: bv32, n: nat)
    requires FitsWord(Drop4(x), n)
    ensures FitsWord(x, n + 4)
  {
    assert ((x >> 1) >> 1) >> 1 == x >> 3 && (x >> 3) >> 1 == Drop4(x);
    assert FitsWord(x >> 3, n + 1);
    assert (x >> 2) >> 1 == x >> 3 && (x >> 1) >> 1 == x >> 2;
    assert FitsWord(x >> 2, n + 2);
    assert FitsWord(x >> 1, n + 3);
  }

  lemma FitsSixteen(x: bv32, n: nat)
    requires FitsWord(Drop16(x), n)
    ensures FitsWord(x, n + 16)
  {
    hide FitsWord, Drop4;
    FitsFour(Drop4(Drop4(Drop4(x))), n);
    FitsFour(Drop4(Drop4(x)), n + 4);
    FitsFour(Drop4(x), n + 8);
    FitsFour(x, n + 12);
  }

  lemma AllDropped(x: bv32)
    ensures Drop16(Drop16(x)) == 0
  {
  }

  lemma EveryWordFits(x: bv32)
    ensures FitsWord(x, 32)
  {
    hide FitsWord, Drop16;
    AllDropped(x);
    ZeroFits();
    FitsSixteen(Drop16(x), 0);
    FitsSixteen(x, 16);
  }

  lemma ZeroFits()
    ensures FitsWord(0, 0)
  {
  }

  lemma WordDigit(x: bv32)
    ensures Word(x) == Add(BitWord(x & 1 != 0), Double(Word(x >> 1)))
  {
  }

  lemma {:induction false} ValueOfWordBits(x: bv32, n: nat)
    requires FitsWord(x, n)
    ensures Value(WordBits(x, n)) == Word(x)
    decreases n
  {
    hide Add, Double, BitWord;
    if n > 0 {
      WordDigit(x);
      ValueOfWordBits(x >> 1, n - 1);
      assert WordBits(x, n)[1..] == WordBits(x >> 1, n - 1);
    }
  }

  lemma {:induction false} PolyIsFeed(bits: seq<bool>)
    ensures Poly(bits, GENERATOR) == Feed(ZERO, bits)
    decreases |bits|
  {
    hide Add, Shift;
    if |bits| > 0 {
      var b := BitWord(bits[0]);
      AddZero(b);
      AddZero(Shift(b));
      PolyIsFeed(bits[1..]);
      FeedFrom(Shift(b), bits[1..]);
      ShiftKernel(ZERO);
      ShiftNZero(|bits| - 1);
    }
  }

  lemma {:induction false} FeedFrom(c: Word, bits: seq<bool>)
    ensures Feed(c, bits) == Add(ShiftN(c, |bits|), Feed(ZERO, bits))
    decreases |bits|
  {
    hide Add, Shift, BitWord;
    AddZero(c);
    if |bits| > 0 {
      var b := BitWord(bits[0]);
      var n := |bits| - 1;
      AddZero(b);
      FeedFrom(Shift(Add(c, b)), bits[1..]);
      FeedFrom(Shift(b), bits[1..]);
      ShiftAdd(c, b);
      ShiftNAdd(Shift(c), Shift(b), n);
      AddAssociates(ShiftN(Shift(c), n), ShiftN(Shift(b), n), Feed(ZERO, bits[1..]));
    }
  }

  /** A word, advanced by its own width, is the polynomial of its bits applied to the generator. */
  lemma Generated(v: Word)
    ensures ShiftN(v, 32) == Poly(WordBits(v.bits, 32), GENERATOR)
  {
    hide Add, Shift, Value, FitsWord, WordBits;
    var bits := WordBits(v.bits, 32);
    PolyIsFeed(bits);
    FeedValue(ZERO, bits);
    EveryWordFits(v.bits);
    ValueOfWordBits(v.bits, 32);
    AddZero(v);
  }

  // ---------- Powers of the step ----------

  /** `w` stands for the operator "k steps". */
  ghost predicate Represents(w: bv32, k: nat) {
    forall u: Word :: ShiftN(u, k) == Poly(WordBits(w, 32), u)
  }

  /** Agreeing on the generator is agreeing everywhere. */
  lemma RepresentsByGenerator(w: bv32, k: nat)
    requires ShiftN(GENERATOR, k) == Poly(WordBits(w, 32), GENERATOR)
    ensures Represents(w, k)
  {
    hide ShiftN, Poly, WordBits;
    var b := WordBits(w, 32);
    forall u: Word
      ensures ShiftN(u, k) == Poly(b, u)
    {
      var c := WordBits(u.bits, 32);
      Generated(u);
      ShiftNSwap(u, k, 32);
      PolyShift(c, GENERATOR, k);
      PolyCommute(c, b, GENERATOR);
      PolyShift(b, u, 32);
      ShiftNInjective(ShiftN(u, k), Poly(b, u), 32);
    }
  }

  /** Horner's rule on the bits of `p`, lowest first. */
  function Horner(acc: bv32, w: bv32, take: bool): bv32 {
    ShiftBits(if take then acc ^ w else acc)
  }

  function Horner4(acc: bv32, w: bv32, p: bv32): bv32 {
    Horner(Horner(Horner(Horner(acc, w, p & 1 != 0), w, p & 2 != 0), w, p & 4 != 0), w, p & 8 != 0)
  }

  function Horner16(acc: bv32, w: bv32, p: bv32): bv32 {
    Horner4(Horner4(Horner4(Horner4(acc, w, p), w, Drop4(p)), w, Drop4(Drop4(p))), w, Drop4(Drop4(Drop4(p))))
  }

  /** The polynomial of `p` applied to the word `w`, computed. */
  function Horner32(w: bv32, p: bv32): bv32 {
    Horner16(Horner16(0, w, p), w, Drop16(p))
  }

  /** The sum of an advanced accumulator and a polynomial: what Horner's rule keeps. */
  function Pending(acc: bv32, w: bv32, bits: seq<bool>): Word {
    Add(ShiftN(Word(acc), |bits|), Poly(bits, Word(w)))
  }

  lemma HornerStep(acc: bv32, w: bv32, take: bool)
    ensures Word(Horner(acc, w, take)) == Shift(Add(Word(acc), if take then Word(w) else ZERO))
  {
    hide Add, ShiftBits;
    if take {
      XorIsAdd(acc, w);
    } else {
      AddZero(Word(acc));
    }
  }

  lemma PendingStep(acc: bv32, w: bv32, bits: seq<bool>)
    requires |bits| > 0
    ensures Pending(acc, w, bits) == Pending(Horner(acc, w, bits[0]), w, bits[1..])
  {
    hide Add, Shift, Horner;
    var n := |bits| - 1;
    var x := if bits[0] then Word(w) else ZERO;
    HornerStep(acc, w, bits[0]);
    ShiftAdd(Word(acc), x);
    ShiftNAdd(Shift(Word(acc)), Shift(x), n);
    AddAssociates(ShiftN(Shift(Word(acc)), n), ShiftN(Shift(x), n), Poly(bits[1..], Word(w)));
    ShiftKernel(ZERO);
    ShiftNZero(n);
  }

  lemma BitsOfFour(p: bv32, n: nat)
    ensures var s := WordBits(p, n + 4);
            s[0] == (p & 1 != 0) && s[1] == (p & 2 != 0) && s[2] == (p & 4 != 0) && s[3] == (p & 8 != 0)
            && s[4..] == WordBits(Drop4(p), n)
  {
    var s := WordBits(p, n + 4);
    assert (p >> 1) >> 1 == p >> 2 && (p >> 2) >> 1 == p >> 3 && (p >> 3) >> 1 == p >> 4;
    assert s[1..] == WordBits(p >> 1, n + 3);
    assert s[2..] == WordBits(p >> 1, n + 3)[1..] == WordBits(p >> 2, n + 2);
    assert s[3..] == WordBits(p >> 2, n + 2)[1..] == WordBits(p >> 3, n + 1);
    assert s[4..] == WordBits(p >> 3, n + 1)[1..];
    DigitsOfFour(p);
  }

  lemma DigitsOfFour(p: bv32)
    ensures ((p >> 1) & 1 != 0) == (p & 2 != 0)
    ensures ((p >> 2) & 1 != 0) == (p & 4 != 0)
    ensures ((p >> 3) & 1 != 0) == (p & 8 != 0)
  {
  }

  lemma PendingFour(acc: bv32, w: bv32, p: bv32, n: nat)
    ensures Pending(acc, w, WordBits(p, n + 4)) == Pending(Horner4(acc, w, p), w, WordBits(Drop4(p), n))
  {
    hide Pending, Horner, WordBits, Drop4;
    var s := WordBits(p, n + 4);
    BitsOfFour(p, n);
    var a1 := Horner(acc, w, s[0]);
    var a2 := Horner(a1, w, s[1]);
    var a3 := Horner(a2, w, s[2]);
    PendingStep(acc, w, s);
    PendingStep(a1, w, s[1..]);
    PendingStep(a2, w, s[2..]);
    PendingStep(a3, w, s[3..]);
    assert s[1..][1..] == s[2..] && s[2..][1..] == s[3..] && s[3..][1..] == s[4..];
  }

  lemma PendingSixteen(acc: bv32, w: bv32, p: bv32, n: nat)
    ensures Pending(acc, w, WordBits(p, n + 16)) == Pending(Horner16(acc, w, p), w, WordBits(Drop16(p), n))
  {
    hide Pending, Horner4, WordBits, Drop4;
    var a1 := Horner4(acc, w, p);
    var a2 := Horner4(a1, w, Drop4(p));
    var a3 := Horner4(a2, w, Drop4(Drop4(p)));
    PendingFour(acc, w, p, n + 12);
    PendingFour(a1, w, Drop4(p), n + 8);
    PendingFour(a2, w, Drop4(Drop4(p)), n + 4);
    PendingFour(a3, w, Drop4(Drop4(Drop4(p))), n);
  }

  lemma PolyByHorner(w: bv32, p: bv32)
    ensures Poly(WordBits(p, 32), Word(w)) == Word(Horner32(w, p))
  {
    hide Add, Horner16, Shift, WordBits, Drop16;
    PendingSixteen(0, w, p, 16);
    PendingSixteen(Horner16(0, w, p), w, Drop16(p), 0);
    ShiftNZero(32);
    var r := Word(Horner32(w, p));
    assert WordBits(Drop16(Drop16(p)), 0) == [];
    AddZero(Poly(WordBits(p, 32), Word(w)));
    AddZero(r);
  }

  /** Doubling the number of steps squares the representing word. */
  lemma Squaring(w: bv32, square: bv32, k: nat)
    requires Represents(w, k) && Horner32(w, w) == square
    ensures Represents(square, 2 * k)
  {
    hide ShiftN, Poly, WordBits, Horner32;
    var b := WordBits(w, 32);
    assert ShiftN(GENERATOR, k) == Poly(b, GENERATOR);
    Generated(Word(w));
    PolyByHorner(w, w);
    Generated(Word(square));
    PolyShift(b, Word(w), 32);
    assert ShiftN(Poly(b, GENERATOR), k) == Poly(b, Poly(b, GENERATOR));
    ShiftNSplit(GENERATOR, k, k);
    RepresentsByGenerator(square, 2 * k);
  }

  // ---------- Squaring thirty-two times: 2^32 steps are one step ----------

  /** Evaluating Horner's rule in two halves. */
  lemma Halves(w: bv32, p: bv32, middle: bv32, high: bv32, result: bv32)
    requires Horner16(0, w, p) == middle && Drop16(p) == high && Horner16(middle, w, high) == result
    ensures Horner32(w, p) == result
  {
    hide Horner16, Drop16;
  }

  lemma SquareOf0()
    ensures Horner32(0x8000_0000, 0x8000_0000) == 0x4000_0000
  {
    Halves(0x8000_0000, 0x8000_0000, 0x0000_0000, 0x8000, 0x4000_0000);
  }

  lemma SquareOf1()
    ensures Horner32(0x4000_0000, 0x4000_0000) == 0x1000_0000
  {
    Halves(0x4000_0000, 0x4000_0000, 0x0000_0000, 0x4000, 0x1000_0000);
  }

  lemma SquareOf2()
    ensures Horner32(0x1000_0000, 0x1000_0000) == 0x0100_0000
  {
    Halves(0x1000_0000, 0x1000_0000, 0x0000_0000, 0x1000, 0x0100_0000);
  }

  lemma SquareOf3()
    ensures Horner32(0x0100_0000, 0x0100_0000) == 0x0001_0000
  {
    Halves(0x0100_0000, 0x0100_0000, 0x0000_0000, 0x0100, 0x0001_0000);
  }

  lemma SquareOf4()
    ensures Horner32(0x0001_0000, 0x0001_0000) == 0x0000_0001
  {
    Halves(0x0001_0000, 0x0001_0000, 0x0000_0000, 0x0001, 0x0000_0001);
  }

  lemma SquareOf5()
    ensures Horner32(0x0000_0001, 0x0000_0001) == 0xB8BC_6765
  {
    Halves(0x0000_0001, 0x0000_0001, 0x191B_3141, 0x0000, 0xB8BC_6765);
  }

  lemma SquareOf6()
    ensures Horner32(0xB8BC_6765, 0xB8BC_6765) == 0x9BA5_4C6F
  {
    Halves(0xB8BC_6765, 0xB8BC_6765, 0x732B_35B4, 0xB8BC, 0x9BA5_4C6F);
  }

  lemma SquareOf7()
    ensures Horner32(0x9BA5_4C6F, 0x9BA5_4C6F) == 0x01B5_FD1D
  {
    Halves(0x9BA5_4C6F, 0x9BA5_4C6F, 0xFD7E_138F, 0x9BA5, 0x01B5_FD1D);
  }

  lemma SquareOf8()
    ensures Horner32(0x01B5_FD1D, 0x01B5_FD1D) == 0xCAD3_8E8F
  {
    Halves(0x01B5_FD1D, 0x01B5_FD1D, 0xD437_E14B, 0x01B5, 0xCAD3_8E8F);
  }

  lemma SquareOf9()
    ensures Horner32(0xCAD3_8E8F, 0xCAD3_8E8F) == 0x7406_FA95
  {
    Halves(0xCAD3_8E8F, 0xCAD3_8E8F, 0xD0F0_11F4, 0xCAD3, 0x7406_FA95);
  }

  lemma SquareOf10()
    ensures Horner32(0x7406_FA95, 0x7406_FA95) == 0x03F9_F863
  {
    Halves(0x7406_FA95, 0x7406_FA95, 0x7FB4_FC2C, 0x7406, 0x03F9_F863);
  }

  lemma SquareOf11()
    ensures Horner32(0x03F9_F863, 0x03F9_F863) == 0xC78C_44A1
  {
    Halves(0x03F9_F863, 0x03F9_F863, 0x66F0_4813, 0x03F9, 0xC78C_44A1);
  }

  lemma SquareOf12()
    ensures Horner32(0xC78C_44A1, 0xC78C_44A1) == 0xC84F_001C
  {
    Halves(0xC78C_44A1, 0xC78C_44A1, 0x5A2C_64D4, 0xC78C, 0xC84F_001C);
  }

  lemma SquareOf13()
    ensures Horner32(0xC84F_001C, 0xC84F_001C) == 0x9A8F_75C0
  {
    Halves(0xC84F_001C, 0xC84F_001C, 0xCDB5_8A76, 0xC84F, 0x9A8F_75C0);
  }

  lemma SquareOf14()
    ensures Horner32(0x9A8F_75C0, 0x9A8F_75C0) == 0x13FC_A91E
  {
    Halves(0x9A8F_75C0, 0x9A8F_75C0, 0x55AA_C3A5, 0x9A8F, 0x13FC_A91E);
  }

  lemma SquareOf15()
    ensures Horner32(0x13FC_A91E, 0x13FC_A91E) == 0xDC7B_5C5F
  {
    Halves(0x13FC_A91E, 0x13FC_A91E, 0xA2DC_B8AF, 0x13FC, 0xDC7B_5C5F);
  }

  lemma SquareOf16()
    ensures Horner32(0xDC7B_5C5F, 0xDC7B_5C5F) == 0x606C_5E34
  {
    Halves(0xDC7B_5C5F, 0xDC7B_5C5F, 0x9209_F37A, 0xDC7B, 0x606C_5E34);
  }

  lemma SquareOf17()
    ensures Horner32(0x606C_5E34, 0x606C_5E34) == 0xF6B5_3986
  {
    Halves(0x606C_5E34, 0x606C_5E34, 0x26FC_B57A, 0x606C, 0xF6B5_3986);
  }

  lemma SquareOf18()
    ensures Horner32(0xF6B5_3986, 0xF6B5_3986) == 0x63FD_82D2
  {
    Halves(0xF6B5_3986, 0xF6B5_3986, 0x4EF5_13BA, 0xF6B5, 0x63FD_82D2);
  }

  lemma SquareOf19()
    ensures Horner32(0x63FD_82D2, 0x63FD_82D2) == 0xE4A9_0215
  {
    Halves(0x63FD_82D2, 0x63FD_82D2, 0x4916_6788, 0x63FD, 0xE4A9_0215);
  }

  lemma SquareOf20()
    ensures Horner32(0xE4A9_0215, 0xE4A9_0215) == 0xD91B_DB88
  {
    Halves(0xE4A9_0215, 0xE4A9_0215, 0x251A_7D1F, 0xE4A9, 0xD91B_DB88);
  }

  lemma SquareOf21()
    ensures Horner32(0xD91B_DB88, 0xD91B_DB88) == 0x2BAD_0E9A
  {
    Halves(0xD91B_DB88, 0xD91B_DB88, 0xD636_1F88, 0xD91B, 0x2BAD_0E9A);
  }

  lemma SquareOf22()
    ensures Horner32(0x2BAD_0E9A, 0x2BAD_0E9A) == 0xBFBC_F49C
  {
    Halves(0x2BAD_0E9A, 0x2BAD_0E9A, 0x947C_1B31, 0x2BAD, 0xBFBC_F49C);
  }

  lemma SquareOf23()
    ensures Horner32(0xBFBC_F49C, 0xBFBC_F49C) == 0xAEC3_1A2F
  {
    Halves(0xBFBC_F49C, 0xBFBC_F49C, 0xD5F0_EF92, 0xBFBC, 0xAEC3_1A2F);
  }

  lemma SquareOf24()
    ensures Horner32(0xAEC3_1A2F, 0xAEC3_1A2F) == 0x5C9C_BDDE
  {
    Halves(0xAEC3_1A2F, 0xAEC3_1A2F, 0xCE75_247D, 0xAEC3, 0x5C9C_BDDE);
  }

  lemma SquareOf25()
    ensures Horner32(0x5C9C_BDDE, 0x5C9C_BDDE) == 0x9D57_4428
  {
    Halves(0x5C9C_BDDE, 0x5C9C_BDDE, 0xE15A_7F0B, 0x5C9C, 0x9D57_4428);
  }

  lemma SquareOf26()
    ensures Horner32(0x9D57_4428, 0x9D57_4428) == 0x8A39_E3C1
  {
    Halves(0x9D57_4428, 0x9D57_4428, 0xD223_4754, 0x9D57, 0x8A39_E3C1);
  }

  lemma SquareOf27()
    ensures Horner32(0x8A39_E3C1, 0x8A39_E3C1) == 0x8535_2D3C
  {
    Halves(0x8A39_E3C1, 0x8A39_E3C1, 0x055C_8749, 0x8A39, 0x8535_2D3C);
  }

  lemma SquareOf28()
    ensures Horner32(0x8535_2D3C, 0x8535_2D3C) == 0x291A_6054
  {
    Halves(0x8535_2D3C, 0x8535_2D3C, 0xDCD1_8C06, 0x8535, 0x291A_6054);
  }

  lemma SquareOf29()
    ensures Horner32(0x291A_6054, 0x291A_6054) == 0x5366_4BE1
  {
    Halves(0x291A_6054, 0x291A_6054, 0x2F1F_95EB, 0x291A, 0x5366_4BE1);
  }

  lemma SquareOf30()
    ensures Horner32(0x5366_4BE1, 0x5366_4BE1) == 0x52B5_5E39
  {
    Halves(0x5366_4BE1, 0x5366_4BE1, 0x639D_FBCF, 0x5366, 0x52B5_5E39);
  }

  lemma SquareOf31()
    ensures Horner32(0x52B5_5E39, 0x52B5_5E39) == 0x8000_0000
  {
    Halves(0x52B5_5E39, 0x52B5_5E39, 0x8BF9_2772, 0x52B5, 0x8000_0000);
  }

  lemma Powers0To8()
    requires Represents(0x8000_0000, 1)
    ensures Represents(0x01B5_FD1D, 256)
  {
    hide Represents, Horner32;
    SquareOf0();
    Squaring(0x8000_0000, 0x4000_0000, 1);
    SquareOf1();
    Squaring(0x4000_0000, 0x1000_0000, 2);
    SquareOf2();
    Squaring(0x1000_0000, 0x0100_0000, 4);
    SquareOf3();
    Squaring(0x0100_0000, 0x0001_0000, 8);
    SquareOf4();
    Squaring(0x0001_0000, 0x0000_0001, 16);
    SquareOf5();
    Squaring(0x0000_0001, 0xB8BC_6765, 32);
    SquareOf6();
    Squaring(0xB8BC_6765, 0x9BA5_4C6F, 64);
    SquareOf7();
    Squaring(0x9BA5_4C6F, 0x01B5_FD1D, 128);
  }

  lemma Powers8To16()
    requires Represents(0x01B5_FD1D, 256)
    ensures Represents(0xDC7B_5C5F, 65536)
  {
    hide Represents, Horner32;
    SquareOf8();
    Squaring(0x01B5_FD1D, 0xCAD3_8E8F, 256);
    SquareOf9();
    Squaring(0xCAD3_8E8F, 0x7406_FA95, 512);
    SquareOf10();
    Squaring(0x7406_FA95, 0x03F9_F863, 1024);
    SquareOf11();
    Squaring(0x03F9_F863, 0xC78C_44A1, 2048);
    SquareOf12();
    Squaring(0xC78C_44A1, 0xC84F_001C, 4096);
    SquareOf13();
    Squaring(0xC84F_001C, 0x9A8F_75C0, 8192);
    SquareOf14();
    Squaring(0x9A8F_75C0, 0x13FC_A91E, 16384);
    SquareOf15();
    Squaring(0x13FC_A91E, 0xDC7B_5C5F, 32768);
  }

  lemma Powers16To24()
    requires Represents(0xDC7B_5C5F, 65536)
    ensures Represents(0xAEC3_1A2F, 16777216)
  {
    hide Represents, Horner32;
    SquareOf16();
    Squaring(0xDC7B_5C5F, 0x606C_5E34, 65536);
    SquareOf17();
    Squaring(0x606C_5E34, 0xF6B5_3986, 131072);
    SquareOf18();
    Squaring(0xF6B5_3986, 0x63FD_82D2, 262144);
    SquareOf19();
    Squaring(0x63FD_82D2, 0xE4A9_0215, 524288);
    SquareOf20();
    Squaring(0xE4A9_0215, 0xD91B_DB88, 1048576);
    SquareOf21();
    Squaring(0xD91B_DB88, 0x2BAD_0E9A, 2097152);
    SquareOf22();
    Squaring(0x2BAD_0E9A, 0xBFBC_F49C, 4194304);
    SquareOf23();
    Squaring(0xBFBC_F49C, 0xAEC3_1A2F, 8388608);
  }

  lemma Powers24To32()
    requires Represents(0xAEC3_1A2F, 16777216)
    ensures Represents(0x8000_0000, 4294967296)
  {
    hide Represents, Horner32;
    SquareOf24();
    Squaring(0xAEC3_1A2F, 0x5C9C_BDDE, 16777216);
    SquareOf25();
    Squaring(0x5C9C_BDDE, 0x9D57_4428, 33554432);
    SquareOf26();
    Squaring(0x9D57_4428, 0x8A39_E3C1, 67108864);
    SquareOf27();
    Squaring(0x8A39_E3C1, 0x8535_2D3C, 134217728);
    SquareOf28();
    Squaring(0x8535_2D3C, 0x291A_6054, 268435456);
    SquareOf29();
    Squaring(0x291A_6054, 0x5366_4BE1, 536870912);
    SquareOf30();
    Squaring(0x5366_4BE1, 0x52B5_5E39, 1073741824);
    SquareOf31();
    Squaring(0x52B5_5E39, 0x8000_0000, 2147483648);
  }

  lemma OneStep()
    ensures Represents(0x8000_0000, 1)
  {
    hide Horner32, WordBits, Poly;
    PolyByHorner(1, 0x8000_0000);
    OneStepValue();
    assert ShiftN(GENERATOR, 1) == Shift(GENERATOR);
    RepresentsByGenerator(0x8000_0000, 1);
  }

  lemma OneStepValue()
    ensures Word(Horner32(1, 0x8000_0000)) == Shift(GENERATOR)
  {
  }

  lemma ManySteps()
    ensures Represents(0xDC7B_5C5F, 65536)
    ensures Represents(0x8000_0000, 0x1_0000_0000)
  {
    hide Represents;
    OneStep();
    Powers0To8();
    Powers8To16();
    Powers16To24();
    Powers24To32();
  }

  /** Every register value is back after 2^32 - 1 steps. */
  lemma FullPeriod(u: Word)
    ensures ShiftN(u, 0xFFFF_FFFF) == u
  {
    hide ShiftN, Poly, WordBits;
    OneStep();
    ManySteps();
    ShiftNSplit(u, 0xFFFF_FFFF, 1);
    ShiftNInjective(ShiftN(u, 0xFFFF_FFFF), u, 1);
  }

  // ---------- 65535 steps move every nonzero value ----------

  const INVERSE: bv32 := 0x3F5A_2CF4

  /** The difference that 65536 steps make to one step. */
  function Drift(u: Word): Word {
    Add(ShiftN(u, 65536), ShiftN(u, 1))
  }

  lemma DriftPoly(c: seq<bool>, u: Word)
    ensures Drift(Poly(c, u)) == Poly(c, Drift(u))
  {
    hide Add, ShiftN;
    PolyShift(c, u, 65536);
    PolyShift(c, u, 1);
    PolyAdd(c, ShiftN(u, 65536), ShiftN(u, 1));
  }

  lemma DriftShift(u: Word, k: nat)
    ensures Drift(ShiftN(u, k)) == ShiftN(Drift(u), k)
  {
    hide Add, ShiftN;
    ShiftNSwap(u, k, 65536);
    ShiftNSwap(u, k, 1);
    ShiftNAdd(ShiftN(u, 65536), ShiftN(u, 1), k);
  }

  lemma DriftWord()
    ensures Add(Word(0xDC7B_5C5F), Word(0x8000_0000)) == Word(0x5C7B_5C5F)
    ensures Horner32(0x5C7B_5C5F, INVERSE) == 1
  {
    Halves(0x5C7B_5C5F, INVERSE, 0xE5A1_1D1E, 0x3F5A, 1);
  }

  /** The drift can be undone: a polynomial in the step takes it back to the value advanced by 32. */
  lemma DriftInvertible()
    ensures Poly(WordBits(INVERSE, 32), Drift(GENERATOR)) == ShiftN(GENERATOR, 32)
  {
    hide Add, ShiftN, Poly, WordBits, Horner32;
    OneStep();
    ManySteps();
    Generated(Word(0xDC7B_5C5F));
    Generated(Word(0x8000_0000));
    ShiftNAdd(Word(0xDC7B_5C5F), Word(0x8000_0000), 32);
    DriftWord();
    PolyByHorner(0x5C7B_5C5F, INVERSE);
    PolyShift(WordBits(INVERSE, 32), Word(0x5C7B_5C5F), 32);
  }

  lemma NoPeriod65535(u: Word)
    requires ShiftN(u, 65535) == u
    ensures u == ZERO
  {
    hide Add, ShiftN, Poly, WordBits, Drift;
    var c, r := WordBits(u.bits, 32), WordBits(INVERSE, 32);
    DriftOfPeriodic(u);
    DriftShift(u, 32);
    ShiftNZero(32);
    PolyZero(r);
    Generated(u);
    DriftPoly(c, GENERATOR);
    PolyCommute(r, c, Drift(GENERATOR));
    DriftInvertible();
    PolyShift(c, GENERATOR, 32);
    ShiftNKernel(ShiftN(u, 32), 32);
    ShiftNKernel(u, 32);
  }

  lemma DriftOfPeriodic(u: Word)
    requires ShiftN(u, 65535) == u
    ensures Drift(u) == ZERO
  {
    hide Add, ShiftN;
    ShiftNSplit(u, 65535, 1);
    AddSelf(ShiftN(u, 1));
  }

  // ---------- Periods of a nonzero value ----------

  lemma {:induction false} RepeatPeriod(u: Word, m: nat, j: nat)
    requires ShiftN(u, m) == u
    ensures ShiftN(u, m * j) == u
    decreases j
  {
    hide Shift, ShiftN;
    if j == 0 {
      NoSteps(u);
    } else {
      RepeatPeriod(u, m, j - 1);
      assert m * j == m * (j - 1) + m;
      ShiftNSplit(u, m * (j - 1), m);
    }
  }

  lemma NoSteps(u: Word)
    ensures ShiftN(u, 0) == u
  {
  }

  lemma PeriodDifference(u: Word, a: nat, b: nat)
    requires a >= b && ShiftN(u, 65535 * a) == u == ShiftN(u, 65535 * b)
    ensures ShiftN(u, 65535 * (a - b)) == u
  {
    hide ShiftN;
    ShiftNSplit(u, 65535 * (a - b), 65535 * b);
    ShiftNInjective(ShiftN(u, 65535 * (a - b)), u, 65535 * b);
  }

  /** Two periods have a common divisor that is a period as well. */
  lemma {:induction false} CommonPeriod(u: Word, a: nat, b: nat) returns (g: nat, x: nat, y: nat)
    requires a > 0 && b > 0 && ShiftN(u, 65535 * a) == u == ShiftN(u, 65535 * b)
    ensures g > 0 && x > 0 && y > 0 && a == g * x && b == g * y && ShiftN(u, 65535 * g) == u
    decreases a + b
  {
    hide ShiftN;
    if a == b {
      return a, 1, 1;
    } else if a > b {
      PeriodDifference(u, a, b);
      g, x, y := CommonPeriod(u, a - b, b);
      assert g * (x + y) == g * x + g * y;
      x := x + y;
    } else {
      PeriodDifference(u, b, a);
      g, x, y := CommonPeriod(u, a, b - a);
      assert g * (x + y) == g * x + g * y;
      y := x + y;
    }
  }

  predicate Indivisible(n: nat, k: nat)
    decreases k
  {
    k < 2 || (n % k != 0 && Indivisible(n, k - 1))
  }

  lemma {:induction false} IndivisibleBy(n: nat, k: nat, d: nat)
    requires Indivisible(n, k) && 2 <= d <= k
    ensures n % d != 0
    decreases k
  {
    if d < k {
      IndivisibleBy(n, k - 1, d);
    }
  }

  lemma DivisorLeavesNothing(n: nat, d: nat, e: nat)
    requires d > 0 && n == d * e
    ensures n % d == 0
  {
    var q, r := n / d, n % d;
    assert n == d * q + r;
    assert d * (e - q) == r;
    ScaledBounds(d, e - q);
  }

  lemma ScaledBounds(d: int, t: int)
    requires d > 0
    ensures t >= 1 ==> d * t >= d
    ensures t <= -1 ==> d * t + d <= 0
  {
    if t >= 1 {
      Grows(d, d, t);
    } else if t <= -1 {
      Grows(d, d, -t);
      assert d * (-t) == -(d * t);
    }
  }

  lemma NoDivisorTo64()
    ensures Indivisible(65537, 64)
  {
    assert Indivisible(65537, 8);
    assert Indivisible(65537, 16);
    assert Indivisible(65537, 24);
    assert Indivisible(65537, 32);
    assert Indivisible(65537, 40);
    assert Indivisible(65537, 48);
    assert Indivisible(65537, 56);
    assert Indivisible(65537, 64);
  }

  lemma NoDivisorTo128()
    requires Indivisible(65537, 64)
    ensures Indivisible(65537, 128)
  {
    assert Indivisible(65537, 72);
    assert Indivisible(65537, 80);
    assert Indivisible(65537, 88);
    assert Indivisible(65537, 96);
    assert Indivisible(65537, 104);
    assert Indivisible(65537, 112);
    assert Indivisible(65537, 120);
    assert Indivisible(65537, 128);
  }

  lemma NoDivisorTo192()
    requires Indivisible(65537, 128)
    ensures Indivisible(65537, 192)
  {
    assert Indivisible(65537, 136);
    assert Indivisible(65537, 144);
    assert Indivisible(65537, 152);
    assert Indivisible(65537, 160);
    assert Indivisible(65537, 168);
    assert Indivisible(65537, 176);
    assert Indivisible(65537, 184);
    assert Indivisible(65537, 192);
  }

  lemma NoDivisorTo256()
    requires Indivisible(65537, 192)
    ensures Indivisible(65537, 256)
  {
    assert Indivisible(65537, 200);
    assert Indivisible(65537, 208);
    assert Indivisible(65537, 216);
    assert Indivisible(65537, 224);
    assert Indivisible(65537, 232);
    assert Indivisible(65537, 240);
    assert Indivisible(65537, 248);
    assert Indivisible(65537, 256);
  }

  lemma NoSmallDivisor()
    ensures Indivisible(65537, 256)
  {
    hide Indivisible;
    NoDivisorTo64();
    NoDivisorTo128();
    NoDivisorTo192();
    NoDivisorTo256();
  }

  lemma FermatPrime(g: nat, y: nat)
    requires g * y == 65537
    ensures g == 1 || y == 1
  {
    NoSmallDivisor();
    if g >= 257 && y >= 257 {
      Grows(g, 257, y);
    } else if 2 <= g <= 256 {
      IndivisibleBy(65537, 256, g);
      DivisorLeavesNothing(65537, g, y);
    } else if 2 <= y <= 256 {
      IndivisibleBy(65537, 256, y);
      assert y * g == g * y;
      DivisorLeavesNothing(65537, y, g);
    }
  }

  lemma {:induction false} Grows(g: nat, low: nat, y: nat)
    requires g >= low
    ensures g * y >= low * y && (y > 0 ==> g * y >= g)
    decreases y
  {
    if y > 0 {
      Grows(g, low, y - 1);
      assert g * y == g * (y - 1) + g && low * y == low * (y - 1) + low;
    }
  }

  /**
   * A nonzero register value can only return after a multiple of 65537 steps: its shortest period
   * divides 2^32 - 1 = 65535 * 65537, does not divide 65535, and 65537 is prime.
   */
  lemma NoShortPeriod(x: Word, n: nat)
    requires n % 65537 != 0
    ensures ShiftN(x, n) == x <==> x == ZERO
  {
    hide Shift, ShiftN;
    ShiftNZero(n);
    if ShiftN(x, n) == x {
      RepeatPeriod(x, n, 65535);
      assert n * 65535 == 65535 * n;
      FullPeriod(x);
      assert 65535 * 65537 == 0xFFFF_FFFF;
      var g, k, y := CommonPeriod(x, n, 65537);
      FermatPrime(g, y);
      if y == 1 {
        DivisorLeavesNothing(n, 65537, k);
      }
      NoPeriod65535(x);
    }
  }

  /**
   * The checksum in the frame is the documented CRC over checked bytes and payload exactly for
   * frames without a payload, and for headers whose own CRC happens to be zero.
   */
  lemma ChecksumIsDocumentedExactly(checked: seq<byte>, payload: seq<byte>)
    requires |payload| <= MAX_PAYLOAD
    ensures Checksum(checked, payload) == DocumentedChecksum(checked, payload)
       <==> |payload| == 0 || Crc(checked) == ZERO
  {
    hide Checksum, DocumentedChecksum, Crc, ShiftN;
    ChecksumVersusDocumented(checked, payload);
    if |payload| > 0 {
      NoShortPeriod(Crc(checked), 8 * |payload|);
    } else {
      NoSteps(Crc(checked));
    }
  }
}
