/**
 * Error detection. The byte loop is re-read as a bit-serial register fed the data's bits, least
 * significant bit of each byte first. In that form a difference confined to 32 consecutive bits
 * leaves exactly the differing bits in the register, and stepping never loses them.
 */
module CrcBurst {
  import opened Bytes
  import opened Register
  import opened Crc32

  function BitWord(b: bool): Word {
    if b then Word(1) else ZERO
  }

  /** The bit-serial register: add the bit at the low end, then step. */
  function Feed(c: Word, bits: seq<bool>): Word
    decreases |bits|
  {
    if |bits| == 0 then c else Feed(Shift(Add(c, BitWord(bits[0]))), bits[1..])
  }

  function LowBits(x: byte, n: nat): (s: seq<bool>)
    ensures |s| == n
    decreases n
  {
    if n == 0 then [] else [x & 1 != 0] + LowBits(x >> 1, n - 1)
  }

  function ByteBits(b: byte): (s: seq<bool>)
    ensures |s| == 8
  {
    LowBits(b, 8)
  }

  /** All bits of the data in the order the CRC takes them. */
  function Bits(data: seq<byte>): (s: seq<bool>)
    ensures |s| == 8 * |data|
  {
    if |data| == 0 then [] else ByteBits(data[0]) + Bits(data[1..])
  }

  lemma {:induction false} BitsConcat(a: seq<byte>, b: seq<byte>)
    ensures Bits(a + b) == Bits(a) + Bits(b)
    decreases |a|
  {
    hide ByteBits;
    if |a| == 0 {
      assert a + b == b;
    } else {
      assert (a + b)[1..] == a[1..] + b;
      BitsConcat(a[1..], b);
    }
  }

  function XorBits(a: seq<bool>, b: seq<bool>): (c: seq<bool>)
    requires |a| == |b|
    ensures |c| == |a|
  {
    seq(|a|, i requires 0 <= i < |a| => a[i] != b[i])
  }

  /** Two equal-length messages that differ, and only inside the 32 bits from `start` on. */
  ghost predicate DifferInBurst(a: seq<byte>, b: seq<byte>, start: nat) {
    && |a| == |b|
    && a != b
    && forall t :: 0 <= t < 8 * |a| && !(start <= t < start + 32) ==> Bits(a)[t] == Bits(b)[t]
  }

  // ---------- The register holds up to 32 fed bits verbatim ----------

  function DoubleBits(c: bv32): bv32 {
    c << 1
  }

  function Double(w: Word): Word {
    Word(DoubleBits(w.bits))
  }

  predicate TopClear(w: Word) {
    w.bits & 0x8000_0000 == 0
  }

  /** The word whose binary digits are `bits`, least significant first. */
  function Value(bits: seq<bool>): Word
    decreases |bits|
  {
    if |bits| == 0 then ZERO else Add(BitWord(bits[0]), Double(Value(bits[1..])))
  }

  /** `w` can be doubled `k` times without losing a bit. */
  predicate Room(w: Word, k: nat)
    decreases k
  {
    k == 0 || (TopClear(w) && Room(Double(w), k - 1))
  }

  lemma DoubleXor(a: bv32, b: bv32)
    ensures DoubleBits(Xor(a, b)) == Xor(DoubleBits(a), DoubleBits(b))
  {
  }

  lemma DoubleAdd(a: Word, b: Word)
    ensures Double(Add(a, b)) == Add(Double(a), Double(b))
  {
    hide DoubleBits, Xor;
    DoubleXor(a.bits, b.bits);
  }

  lemma TopClearAdd(a: Word, b: Word)
    requires TopClear(a) && TopClear(b)
    ensures TopClear(Add(a, b))
  {
  }

  lemma {:induction false} RoomAdd(a: Word, b: Word, k: nat)
    requires Room(a, k) && Room(b, k)
    ensures Room(Add(a, b), k)
    decreases k
  {
    hide Add, Double, TopClear;
    if k > 0 {
      TopClearAdd(a, b);
      DoubleAdd(a, b);
      RoomAdd(Double(a), Double(b), k - 1);
    }
  }

  lemma {:induction false} RoomShrinks(w: Word, k: nat, j: nat)
    requires Room(w, k) && j <= k
    ensures Room(w, j)
    decreases k
  {
    hide Double, TopClear;
    if j > 0 {
      RoomShrinks(Double(w), k - 1, j - 1);
    }
  }

  lemma {:induction false} RoomOfZero(k: nat)
    ensures Room(ZERO, k)
    decreases k
  {
    if k > 0 {
      assert Double(ZERO) == ZERO;
      RoomOfZero(k - 1);
    }
  }

  lemma RoomFour(x: bv32, y: bv32, k: nat)
    requires x & 0xF000_0000 == 0 && y == x << 4
    requires Room(Word(y), k)
    ensures Room(Word(x), k + 4)
  {
    RoomTwo(x << 2, y, k);
    RoomTwo(x, x << 2, k + 2);
  }

  lemma RoomTwo(x: bv32, y: bv32, k: nat)
    requires x & 0xC000_0000 == 0 && y == x << 2
    requires Room(Word(y), k)
    ensures Room(Word(x), k + 2)
  {
    assert (x << 1) << 1 == y;
    assert Room(Word(x << 1), k + 1);
  }

  lemma RoomOfOne()
    ensures Room(Word(1), 31)
  {
    assert Room(Word(0x8000_0000), 0);
    assert Room(Word(0x4000_0000), 1);
    RoomTwo(0x1000_0000, 0x4000_0000, 1);
    RoomFour(0x100_0000, 0x1000_0000, 3);
    RoomFour(0x10_0000, 0x100_0000, 7);
    RoomFour(0x1_0000, 0x10_0000, 11);
    RoomFour(0x1000, 0x1_0000, 15);
    RoomFour(0x100, 0x1000, 19);
    RoomFour(0x10, 0x100, 23);
    RoomFour(0x1, 0x10, 27);
  }

  lemma {:induction false} RoomOfValue(bits: seq<bool>)
    requires |bits| <= 32
    ensures Room(Value(bits), 32 - |bits|)
    decreases |bits|
  {
    hide Add, Double, TopClear;
    if |bits| == 0 {
      RoomOfZero(32);
    } else {
      var k := 32 - |bits|;
      RoomOfValue(bits[1..]);
      if bits[0] {
        RoomOfOne();
        RoomShrinks(Word(1), 31, k);
      } else {
        RoomOfZero(k);
      }
      RoomAdd(BitWord(bits[0]), Double(Value(bits[1..])), k);
    }
  }

  lemma ShiftOfDouble(w: Word)
    requires TopClear(w)
    ensures Shift(Double(w)) == w
  {
    ShiftOfDoubleBits(w.bits);
  }

  lemma ShiftOfDoubleBits(c: bv32)
    requires c & 0x8000_0000 == 0
    ensures ShiftBits(c << 1) == c
  {
  }

  lemma {:induction false} FeedValue(c: Word, bits: seq<bool>)
    requires |bits| <= 32
    ensures Feed(c, bits) == ShiftN(Add(c, Value(bits)), |bits|)
    decreases |bits|
  {
    hide Add, Shift, Double, TopClear, BitWord;
    if |bits| == 0 {
      AddZero(c);
    } else {
      var b, v := BitWord(bits[0]), Value(bits[1..]);
      FeedValue(Shift(Add(c, b)), bits[1..]);
      RoomOfValue(bits[1..]);
      ShiftOfDouble(v);
      AddAssociates(c, b, Double(v));
      ShiftAdd(Add(c, b), Double(v));
    }
  }

  lemma AddOneNonzero(v: bv32)
    ensures Xor(1, DoubleBits(v)) != 0
  {
  }

  lemma DoubleNonzero(v: bv32)
    requires v & 0x8000_0000 == 0 && v != 0
    ensures DoubleBits(v) != 0
  {
  }

  lemma {:induction false} ValueNonzero(bits: seq<bool>, t: nat)
    requires |bits| <= 32 && t < |bits| && bits[t]
    ensures Value(bits) != ZERO
    decreases |bits|
  {
    hide Xor, DoubleBits;
    var v := Value(bits[1..]);
    if bits[0] {
      AddOneNonzero(v.bits);
    } else {
      ValueNonzero(bits[1..], t - 1);
      RoomOfValue(bits[1..]);
      DoubleNonzero(v.bits);
      AddZero(Double(v));
    }
  }

  // ---------- Feeding ----------

  lemma {:induction false} FeedConcat(c: Word, a: seq<bool>, b: seq<bool>)
    ensures Feed(c, a + b) == Feed(Feed(c, a), b)
    decreases |a|
  {
    hide Add, Shift, BitWord;
    if |a| == 0 {
      assert a + b == b;
    } else {
      assert (a + b)[1..] == a[1..] + b;
      FeedConcat(Shift(Add(c, BitWord(a[0]))), a[1..], b);
    }
  }

  lemma {:induction false} FeedFalse(c: Word, bits: seq<bool>)
    requires forall t :: 0 <= t < |bits| ==> !bits[t]
    ensures Feed(c, bits) == ShiftN(c, |bits|)
    decreases |bits|
  {
    hide Add, Shift;
    if |bits| > 0 {
      AddZero(c);
      FeedFalse(Shift(c), bits[1..]);
    }
  }

  lemma BitWordXor(a: bool, b: bool)
    ensures BitWord(a != b) == Add(BitWord(a), BitWord(b))
  {
    AddZero(BitWord(a));
    AddZero(BitWord(b));
    AddSelf(BitWord(a));
  }

  lemma {:induction false} FeedXor(c: Word, d: Word, a: seq<bool>, b: seq<bool>)
    requires |a| == |b|
    ensures Feed(Add(c, d), XorBits(a, b)) == Add(Feed(c, a), Feed(d, b))
    decreases |a|
  {
    hide Add, Shift, BitWord;
    if |a| > 0 {
      var x, y := BitWord(a[0]), BitWord(b[0]);
      BitWordXor(a[0], b[0]);
      AddSwap(c, d, x, y);
      ShiftAdd(Add(c, x), Add(d, y));
      assert XorBits(a, b)[1..] == XorBits(a[1..], b[1..]);
      FeedXor(Shift(Add(c, x)), Shift(Add(d, y)), a[1..], b[1..]);
    }
  }

  // ---------- The byte loop is the bit-serial register ----------

  lemma OfByteDigit(x: byte)
    ensures OfByte(x) == Add(BitWord(x & 1 != 0), Double(OfByte(x >> 1)))
  {
  }

  predicate Fits(x: byte, n: nat)
    decreases n
  {
    if n == 0 then x == 0 else Fits(x >> 1, n - 1)
  }

  lemma ByteFits(b: byte)
    ensures Fits(b, 8)
  {
    assert Fits(b >> 7, 1);
    assert (b >> 6) >> 1 == b >> 7 && (b >> 5) >> 1 == b >> 6 && (b >> 4) >> 1 == b >> 5;
    assert Fits(b >> 4, 4);
    assert (b >> 3) >> 1 == b >> 4 && (b >> 2) >> 1 == b >> 3 && (b >> 1) >> 1 == b >> 2;
    assert Fits(b >> 2, 6);
  }

  lemma OfByteZero()
    ensures OfByte(0) == ZERO
  {
  }

  lemma {:induction false} ValueOfLowBits(x: byte, n: nat)
    requires Fits(x, n)
    ensures Value(LowBits(x, n)) == OfByte(x)
    decreases n
  {
    hide Add, Double, BitWord, OfByte;
    if n == 0 {
      OfByteZero();
    } else {
      OfByteDigit(x);
      ValueOfLowBits(x >> 1, n - 1);
      assert LowBits(x, n)[1..] == LowBits(x >> 1, n - 1);
    }
  }

  lemma ValueOfByte(b: byte)
    ensures Value(ByteBits(b)) == OfByte(b)
  {
    ByteFits(b);
    ValueOfLowBits(b, 8);
  }

  lemma FeedByte(c: Word, b: byte)
    ensures Feed(c, ByteBits(b)) == Absorb(c, b)
  {
    hide Add, Shift;
    FeedValue(c, ByteBits(b));
    ValueOfByte(b);
  }

  /** The firmware's byte loop and the bit-serial register compute the same value. */
  lemma {:induction false} FoldIsFeed(c: Word, data: seq<byte>)
    ensures Fold(c, data) == Feed(c, Bits(data))
    decreases |data|
  {
    hide Absorb, ByteBits;
    if |data| > 0 {
      var head, tail := [data[0]], data[1..];
      assert data == head + tail;
      FoldConcat(c, head, tail);
      assert Fold(c, head) == Absorb(c, data[0]);
      FoldIsFeed(Absorb(c, data[0]), tail);
      FeedByte(c, data[0]);
      FeedConcat(c, ByteBits(data[0]), Bits(tail));
    }
  }

  lemma OfByteInjective(a: byte, b: byte)
    requires OfByte(a) == OfByte(b)
    ensures a == b
  {
  }

  lemma {:induction false} BitsInjective(a: seq<byte>, b: seq<byte>)
    requires |a| == |b| && Bits(a) == Bits(b)
    ensures a == b
    decreases |a|
  {
    hide ByteBits;
    if |a| > 0 {
      assert Bits(a)[..8] == ByteBits(a[0]) && Bits(b)[..8] == ByteBits(b[0]);
      assert Bits(a)[8..] == Bits(a[1..]) && Bits(b)[8..] == Bits(b[1..]);
      ValueOfByte(a[0]);
      ValueOfByte(b[0]);
      OfByteInjective(a[0], b[0]);
      BitsInjective(a[1..], b[1..]);
      assert a == [a[0]] + a[1..] && b == [b[0]] + b[1..];
    }
  }

  // ---------- Burst detection ----------

  /** A nonzero pattern of at most 32 bits between runs of zeros never steps back to zero. */
  lemma BurstSurvives(before: seq<bool>, burst: seq<bool>, after: seq<bool>, t: nat)
    requires forall i :: 0 <= i < |before| ==> !before[i]
    requires forall i :: 0 <= i < |after| ==> !after[i]
    requires |burst| <= 32 && t < |burst| && burst[t]
    ensures Feed(ZERO, before + burst + after) != ZERO
  {
    hide Add, Shift, Value;
    FeedConcat(ZERO, before + burst, after);
    FeedConcat(ZERO, before, burst);
    FeedFalse(ZERO, before);
    ShiftNKernel(ZERO, |before|);
    FeedValue(ZERO, burst);
    AddZero(Value(burst));
    ValueNonzero(burst, t);
    ShiftNKernel(Value(burst), |burst|);
    FeedFalse(ShiftN(Value(burst), |burst|), after);
    ShiftNKernel(ShiftN(Value(burst), |burst|), |after|);
  }

  lemma BurstFeedsApart(x: seq<bool>, y: seq<bool>, start: nat, t: nat)
    requires |x| == |y| && start <= t < start + 32 && t < |x| && x[t] != y[t]
    requires forall i :: 0 <= i < |x| && !(start <= i < start + 32) ==> x[i] == y[i]
    ensures Feed(PRESET, x) != Feed(PRESET, y)
  {
    hide Add, Shift, Feed;
    var d := XorBits(x, y);
    var end := if start + 32 <= |x| then start + 32 else |x|;
    assert d == d[..start] + d[start..end] + d[end..];
    BurstSurvives(d[..start], d[start..end], d[end..], t - start);
    FeedXor(PRESET, PRESET, x, y);
    AddSelf(PRESET);
    AddCancels(Feed(PRESET, x), Feed(PRESET, y));
  }

  /** Every difference confined to 32 consecutive bits reaches the register. */
  lemma BurstChangesFold(a: seq<byte>, b: seq<byte>, start: nat)
    requires DifferInBurst(a, b, start)
    ensures Fold(PRESET, a) != Fold(PRESET, b)
  {
    hide Bits, Feed, Fold;
    if Bits(a) == Bits(b) {
      BitsInjective(a, b);
      assert false;
    }
    var t :| 0 <= t < 8 * |a| && Bits(a)[t] != Bits(b)[t];
    BurstFeedsApart(Bits(a), Bits(b), start, t);
    FoldIsFeed(PRESET, a);
    FoldIsFeed(PRESET, b);
  }

  /** Every difference confined to 32 consecutive bits changes the CRC. */
  lemma BurstChangesCrc(a: seq<byte>, b: seq<byte>, start: nat)
    requires DifferInBurst(a, b, start)
    ensures Crc(a) != Crc(b)
  {
    hide Add, DifferInBurst, Fold;
    BurstChangesFold(a, b, start);
    SameTailCancels(Fold(PRESET, a), Fold(PRESET, b), PRESET);
  }

  lemma SameTailCancels(x: Word, y: Word, p: Word)
    ensures Add(x, p) == Add(y, p) ==> x == y
  {
    hide Add;
    AddAssociates(x, p, p);
    AddAssociates(y, p, p);
    AddSelf(p);
    AddZero(x);
    AddZero(y);
  }
}
