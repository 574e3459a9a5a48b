/**
 * What the firmware's checksum catches and what it does not. With the length field intact, all
 * errors of two flipped bits are classified: the ones that pass are exactly those that hit checked
 * header and payload at the same distance from their ends. One CRC over both, as documented, would
 * catch every one of them. An error in the length field is caught or not depending on what follows.
 */
module FrameErrors {
  import opened Bytes
  import opened Register
  import opened Crc32
  import opened CrcBurst
  import opened Framing
  import opened CrcOrder

  // ---------- Single and double flips in the register ----------

  /** The pattern of `n` bits with only bit `i` set. */
  function Single(n: nat, i: nat): (s: seq<bool>)
    ensures |s| == n
  {
    seq(n, t => t == i)
  }

  /** The two patterns differ at exactly the positions `i` and `j`. */
  ghost predicate DifferAtTwo(x: seq<bool>, y: seq<bool>, i: nat, j: nat) {
    && i < j < |x| == |y|
    && x[i] != y[i] && x[j] != y[j]
    && forall t :: 0 <= t < |x| && t != i && t != j ==> x[t] == y[t]
  }

  /** The two patterns differ at exactly the position `i`. */
  ghost predicate DifferAtOne(x: seq<bool>, y: seq<bool>, i: nat) {
    && i < |x| == |y|
    && x[i] != y[i]
    && forall t :: 0 <= t < |x| && t != i ==> x[t] == y[t]
  }

  /** A single bit counts by its distance from the end. */
  lemma FeedSingle(n: nat, i: nat)
    requires i < n
    ensures Feed(ZERO, Single(n, i)) == ShiftN(GENERATOR, n - i)
  {
    hide Add, Shift, Feed, ShiftN;
    var before, after := seq(i, _ => false), seq(n - i - 1, _ => false);
    assert Single(n, i) == before + [true] + after;
    FeedConcat(ZERO, before + [true], after);
    FeedConcat(ZERO, before, [true]);
    FeedFalse(ZERO, before);
    ShiftNZero(i);
    FeedOne();
    FeedFalse(ShiftN(GENERATOR, 1), after);
    ShiftNSplit(GENERATOR, 1, n - i - 1);
  }

  lemma FeedOne()
    ensures Feed(ZERO, [true]) == ShiftN(GENERATOR, 1)
  {
    hide Add, Shift;
    AddZero(GENERATOR);
    assert ShiftN(GENERATOR, 1) == ShiftN(Shift(GENERATOR), 0);
  }

  /** The registers of two messages differ by what their differing bits feed. */
  lemma FeedDifference(x: seq<bool>, y: seq<bool>)
    requires |x| == |y|
    ensures Add(Feed(PRESET, x), Feed(PRESET, y)) == Feed(ZERO, XorBits(x, y))
  {
    hide Add, Feed;
    FeedXor(PRESET, PRESET, x, y);
    AddSelf(PRESET);
  }

  lemma OneFlip(x: seq<bool>, y: seq<bool>, i: nat)
    requires DifferAtOne(x, y, i)
    ensures Add(Feed(PRESET, x), Feed(PRESET, y)) == ShiftN(GENERATOR, |x| - i)
  {
    hide Add, Feed, ShiftN;
    FeedDifference(x, y);
    assert XorBits(x, y) == Single(|x|, i);
    FeedSingle(|x|, i);
  }

  lemma TwoFlips(x: seq<bool>, y: seq<bool>, i: nat, j: nat)
    requires DifferAtTwo(x, y, i, j)
    ensures Add(Feed(PRESET, x), Feed(PRESET, y)) == Add(ShiftN(GENERATOR, |x| - i), ShiftN(GENERATOR, |x| - j))
  {
    hide Add, Feed, ShiftN;
    var n := |x|;
    FeedDifference(x, y);
    assert XorBits(x, y) == XorBits(Single(n, i), Single(n, j));
    FeedXor(ZERO, ZERO, Single(n, i), Single(n, j));
    AddZero(ZERO);
    FeedSingle(n, i);
    FeedSingle(n, j);
  }

  /** Within 65537 steps, different numbers of steps leave different values. */
  lemma StepsApart(a: nat, b: nat)
    requires a <= b < a + 65537
    ensures ShiftN(GENERATOR, a) == ShiftN(GENERATOR, b) <==> a == b
  {
    hide ShiftN;
    if ShiftN(GENERATOR, a) == ShiftN(GENERATOR, b) && a < b {
      ShiftNSplit(GENERATOR, b - a, a);
      ShiftNInjective(ShiftN(GENERATOR, b - a), GENERATOR, a);
      NoShortPeriod(GENERATOR, b - a);
      assert false;
    }
  }

  lemma TwoFlipsFeedApart(x: seq<bool>, y: seq<bool>, i: nat, j: nat)
    requires DifferAtTwo(x, y, i, j) && j - i < 65537
    ensures Feed(PRESET, x) != Feed(PRESET, y)
  {
    hide Add, Feed, ShiftN;
    TwoFlips(x, y, i, j);
    StepsApart(|x| - j, |x| - i);
    AddCancels(Feed(PRESET, x), Feed(PRESET, y));
    AddCancels(ShiftN(GENERATOR, |x| - i), ShiftN(GENERATOR, |x| - j));
  }

  /** Two flipped bits less than 65537 bits apart always change the CRC. */
  lemma TwoFlipsChangeCrc(a: seq<byte>, b: seq<byte>, i: nat, j: nat)
    requires DifferAtTwo(Bits(a), Bits(b), i, j) && j - i < 65537
    ensures Crc(a) != Crc(b)
  {
    hide Add, Feed, Bits, Fold;
    TwoFlipsFeedApart(Bits(a), Bits(b), i, j);
    FoldIsFeed(PRESET, a);
    FoldIsFeed(PRESET, b);
    SameTailCancels(Fold(PRESET, a), Fold(PRESET, b), PRESET);
  }

  // ---------- Frames ----------

  /** Of a frame's bits, where its header ends, where the checksum field starts, and how many hold magic and version. */
  const HEADER_BITS: nat := 128
  const CHECKED_BITS: nat := 96
  const MAGIC_BITS: nat := 48

  lemma BitsOfParts(data: seq<byte>, n: nat)
    requires n <= |data|
    ensures Bits(data)[..8 * n] == Bits(data[..n]) && Bits(data)[8 * n..] == Bits(data[n..])
  {
    hide Bits;
    BitsConcat(data[..n], data[n..]);
    assert data == data[..n] + data[n..];
  }

  /** The registers of two headers and two payloads stay in step exactly when their differences do. */
  lemma SameEquation(a: Word, b: Word, p: Word, q: Word)
    requires a == ShiftN(p, 32)
    ensures b == ShiftN(q, 32) <==> Add(a, b) == ShiftN(Add(p, q), 32)
  {
    hide Add, ShiftN;
    ShiftNAdd(p, q, 32);
    AddCommutes(a, b);
    AddCommutes(a, ShiftN(q, 32));
    SameTailCancels(b, ShiftN(q, 32), a);
  }

  /** Both flips in the header or both in the payload: the registers no longer agree. */
  lemma FlipsOnOneSide(a: seq<bool>, b: seq<bool>, p: seq<bool>, q: seq<bool>, i: nat, j: nat)
    requires |a| == HEADER_BITS && |p| <= 8 * MAX_PAYLOAD
    requires Feed(PRESET, a) == ShiftN(Feed(PRESET, p), 32)
    requires (DifferAtTwo(a, b, i, j) && p == q) || (a == b && DifferAtTwo(p, q, i, j))
    ensures Feed(PRESET, b) != ShiftN(Feed(PRESET, q), 32)
  {
    hide Feed, ShiftN;
    if a == b {
      TwoFlipsFeedApart(p, q, i, j);
      if ShiftN(Feed(PRESET, p), 32) == ShiftN(Feed(PRESET, q), 32) {
        ShiftNInjective(Feed(PRESET, p), Feed(PRESET, q), 32);
      }
    } else {
      TwoFlipsFeedApart(a, b, i, j);
    }
  }

  /** One flip in the header and one in the payload: the registers agree again exactly at equal distances. */
  lemma FlipsOnBothSides(a: seq<bool>, b: seq<bool>, p: seq<bool>, q: seq<bool>, i: nat, j: nat)
    requires |a| == HEADER_BITS && |p| <= 8 * MAX_PAYLOAD
    requires Feed(PRESET, a) == ShiftN(Feed(PRESET, p), 32)
    requires DifferAtOne(a, b, i) && DifferAtOne(p, q, j)
    ensures Feed(PRESET, b) == ShiftN(Feed(PRESET, q), 32) <==> CHECKED_BITS - i == |p| - j
  {
    hide Add, Feed, ShiftN;
    var m, n := HEADER_BITS - i, |p| - j;
    OneFlip(a, b, i);
    OneFlip(p, q, j);
    SameEquation(Feed(PRESET, a), Feed(PRESET, b), Feed(PRESET, p), Feed(PRESET, q));
    ShiftNSplit(GENERATOR, n, 32);
    if m <= n + 32 { StepsApart(m, n + 32); } else { StepsApart(n + 32, m); }
  }

  /** The same cases, on a whole frame's bits. */
  lemma TwoFlipsInFrame(x: seq<bool>, y: seq<bool>, i: nat, j: nat)
    requires HEADER_BITS <= |x| <= HEADER_BITS + 8 * MAX_PAYLOAD && DifferAtTwo(x, y, i, j)
    requires Feed(PRESET, x[..HEADER_BITS]) == ShiftN(Feed(PRESET, x[HEADER_BITS..]), 32)
    ensures Feed(PRESET, y[..HEADER_BITS]) == ShiftN(Feed(PRESET, y[HEADER_BITS..]), 32)
       <==> i < HEADER_BITS <= j && CHECKED_BITS - i == |x| - j
  {
    hide Feed, ShiftN;
    var a, b, p, q := x[..HEADER_BITS], y[..HEADER_BITS], x[HEADER_BITS..], y[HEADER_BITS..];
    if j < HEADER_BITS {
      assert p == q;
      FlipsOnOneSide(a, b, p, q, i, j);
    } else if i >= HEADER_BITS {
      assert a == b;
      FlipsOnOneSide(a, b, p, q, i - HEADER_BITS, j - HEADER_BITS);
    } else {
      FlipsOnBothSides(a, b, p, q, i, j - HEADER_BITS);
    }
  }

  /**
   * Two flipped bits in an accepted frame, its length field intact: the receiver accepts the result
   * exactly when one flip is in the header after magic and version, the other in the payload, and
   * they lie at the same distance from the end of the checked bytes and from the end of the payload.
   */
  lemma TwoBitErrors(f: Frame, corrupt: seq<byte>, rest: seq<byte>, i: nat, j: nat)
    requires WellFormed(f, MAX_PAYLOAD)
    requires DifferAtTwo(Bits(EncodeFrame(f)), Bits(corrupt), i, j)
    requires corrupt[8..10] == EncodeFrame(f)[8..10]
    ensures Receive(corrupt + rest, MAX_PAYLOAD).frame.Some?
       <==> MAGIC_BITS <= i < HEADER_BITS <= j && CHECKED_BITS - i == 8 * |EncodeFrame(f)| - j
  {
    hide Bits, Feed, Fold, ShiftN, Receive, EncodeHeader, WellFormed;
    var wire := EncodeFrame(f);
    var head, body := corrupt[..HEADER_SIZE], corrupt[HEADER_SIZE..];
    WellFormedLength(f, MAX_PAYLOAD);
    assert |Bits(wire)| == 8 * |wire| && |Bits(corrupt)| == 8 * |corrupt|;
    assert head[8..10] == corrupt[8..10] == wire[8..10] == EncodeHeader(f.header)[8..10];
    assert wire[..HEADER_SIZE] == EncodeHeader(f.header) && wire[HEADER_SIZE..] == f.payload;
    BitsOfParts(wire, HEADER_SIZE);
    BitsOfParts(corrupt, HEADER_SIZE);
    FoldIsFeed(PRESET, EncodeHeader(f.header));
    FoldIsFeed(PRESET, f.payload);
    FoldIsFeed(PRESET, head);
    FoldIsFeed(PRESET, body);
    ReceiveSameLength(f, MAX_PAYLOAD, EncodeHeader(f.header), f.payload, []);
    ReceiveSameLength(f, MAX_PAYLOAD, head, body, rest);
    assert corrupt + rest == head + (body + rest);
    ReceiveOfEncode(f, MAX_PAYLOAD, []);
    assert EncodeFrame(f) + [] == EncodeHeader(f.header) + (f.payload + []);
    TwoFlipsInFrame(Bits(wire), Bits(corrupt), i, j);
    MagicFlip(wire, corrupt, i, j);
    assert head[..6] == corrupt[..6] && EncodeHeader(f.header)[..6] == wire[..6];
  }

  /** Magic and version survive exactly when the first flip comes after them. */
  lemma MagicFlip(x: seq<byte>, y: seq<byte>, i: nat, j: nat)
    requires |x| >= 6 && DifferAtTwo(Bits(x), Bits(y), i, j)
    ensures x[..6] == y[..6] <==> i >= MAGIC_BITS
  {
    hide Bits;
    BitsOfParts(x, 6);
    BitsOfParts(y, 6);
    if i >= MAGIC_BITS {
      assert Bits(x)[..48] == Bits(y)[..48];
      BitsInjective(x[..6], y[..6]);
    } else {
      assert Bits(x)[..48][i] != Bits(y)[..48][i];
    }
  }

  // ---------- Frames on which the two checksums part ----------

  lemma BitOfByte(data: seq<byte>, k: nat, r: nat, t: nat)
    requires k < |data| && r < 8 && t == 8 * k + r
    ensures Bits(data)[t] == ByteBits(data[k])[r]
  {
    hide Bits, ByteBits;
    BitsOfParts(data, k);
    BitsOfParts(data[k..], 1);
    assert Bits(data)[8 * k..][r] == Bits(data)[t];
    assert data[k..][..1] == [data[k]];
    OneByteBits(data[k]);
    assert Bits(data[k..])[..8][r] == Bits(data[k..])[r];
  }

  lemma ByteAndBit(t: nat) returns (q: nat, r: nat)
    ensures t == 8 * q + r && r < 8
  {
    q, r := t / 8, t % 8;
  }

  lemma OneByteBits(b: byte)
    ensures Bits([b]) == ByteBits(b)
  {
    hide ByteBits;
    assert [b][1..] == [];
  }

  /** Messages that differ in one byte only differ in a burst. */
  lemma OneByteIsBurst(a: seq<byte>, b: seq<byte>, k: nat)
    requires |a| == |b| && a != b && forall i :: 0 <= i < |a| && i != k ==> a[i] == b[i]
    ensures DifferInBurst(a, b, 8 * k)
  {
    hide Bits, ByteBits;
    forall t | 0 <= t < 8 * |a| && !(8 * k <= t < 8 * k + 32)
      ensures Bits(a)[t] == Bits(b)[t]
    {
      var q, r := ByteAndBit(t);
      BitOfByte(a, q, r, t);
      BitOfByte(b, q, r, t);
    }
  }

  /** The code's checksum of a response frame is the documented one. */
  predicate Agrees(command: byte, result: byte, payload: seq<byte>, sessionId: uint16)
    requires |payload| <= MAX_PAYLOAD
  {
    var f := Response(command, result, payload, sessionId);
    f.header.crc32 == DocumentedChecksum(CheckedBytes(f.header), payload)
  }

  /**
   * Whatever the rest of the frame: with a payload, at most one of all 256 command bytes makes the
   * two checksums agree.
   */
  lemma AtMostOneCommandAgrees(c: byte, d: byte, result: byte, payload: seq<byte>, sessionId: uint16)
    requires c != d && 1 <= |payload| <= MAX_PAYLOAD
    ensures !(Agrees(c, result, payload, sessionId) && Agrees(d, result, payload, sessionId))
  {
    hide Checksum, DocumentedChecksum, Crc, LE, DifferInBurst;
    var a := CheckedBytes(Response(c, result, payload, sessionId).header);
    var b := CheckedBytes(Response(d, result, payload, sessionId).header);
    assert a[6] == c && b[6] == d;
    OneByteIsBurst(a, b, 6);
    BurstChangesCrc(a, b, 48);
    ChecksumIsDocumentedExactly(a, payload);
    ChecksumIsDocumentedExactly(b, payload);
  }

  function Flipped(b: byte): byte {
    b ^ 1
  }

  /** The lowest bit of byte `k` flipped. */
  function FlipLow(data: seq<byte>, k: nat): (s: seq<byte>)
    requires k < |data|
    ensures |s| == |data|
  {
    data[k := Flipped(data[k])]
  }

  lemma LowBitsStep(x: byte, n: nat)
    requires n > 0
    ensures LowBits(x, n) == [x & 1 != 0] + LowBits(x >> 1, n - 1)
  {
  }

  lemma FlippedParts(b: byte)
    ensures (Flipped(b) & 1 != 0) != (b & 1 != 0) && Flipped(b) >> 1 == b >> 1
  {
  }

  lemma LowFlip(b: byte, r: nat)
    requires r < 8
    ensures ByteBits(Flipped(b))[r] != ByteBits(b)[r] <==> r == 0
  {
    hide LowBits, Flipped;
    LowBitsStep(b, 8);
    LowBitsStep(Flipped(b), 8);
    FlippedParts(b);
  }

  lemma SameByte(q: nat, r: nat, k: nat)
    requires r < 8
    ensures 8 * q + r == 8 * k <==> q == k && r == 0
  {
    if q < k {
      assert 8 * q + 8 <= 8 * k;
    } else if q > k {
      assert 8 * k + 8 <= 8 * q;
    }
  }

  lemma FlippedBit(data: seq<byte>, k: nat, n: nat, t: nat)
    requires k < n < |data| && t < 8 * |data|
    ensures Bits(data)[t] != Bits(FlipLow(FlipLow(data, k), n))[t] <==> t == 8 * k || t == 8 * n
  {
    hide Bits, ByteBits, Flipped;
    var q, r := ByteAndBit(t);
    SameByte(q, r, k);
    SameByte(q, r, n);
    BitOfByte(data, q, r, t);
    BitOfByte(FlipLow(FlipLow(data, k), n), q, r, t);
    LowFlip(data[q], r);
  }

  /** Two bytes with their lowest bits flipped: two flipped bits. */
  lemma TwoLowFlips(data: seq<byte>, k: nat, n: nat)
    requires k < n < |data|
    ensures DifferAtTwo(Bits(data), Bits(FlipLow(FlipLow(data, k), n)), 8 * k, 8 * n)
  {
    hide Bits, FlipLow;
    FlippedBit(data, k, n, 8 * k);
    FlippedBit(data, k, n, 8 * n);
    forall t | 0 <= t < 8 * |data| && t != 8 * k && t != 8 * n
      ensures Bits(data)[t] == Bits(FlipLow(FlipLow(data, k), n))[t]
    {
      FlippedBit(data, k, n, t);
    }
  }

  /**
   * Every frame with a payload has a twin that the receiver accepts in its place: the lowest bits
   * of the session id's high byte and of the last payload byte are flipped.
   */
  lemma UndetectedTwin(f: Frame, rest: seq<byte>)
    requires WellFormed(f, MAX_PAYLOAD) && |f.payload| > 0
    ensures var wire := EncodeFrame(f);
            Receive(FlipLow(FlipLow(wire, 11), |wire| - 1) + rest, MAX_PAYLOAD).frame.Some?
  {
    hide Bits, Receive, EncodeHeader, WellFormed;
    var wire := EncodeFrame(f);
    var n := |wire| - 1;
    TwoLowFlips(wire, 11, n);
    TwoBitErrors(f, FlipLow(FlipLow(wire, 11), n), rest, 88, 8 * n);
  }

  /** The documented checksum would catch every pair of flipped bits in checked bytes and payload. */
  lemma DocumentedCatchesTwoFlips(a: seq<byte>, p: seq<byte>, b: seq<byte>, q: seq<byte>, i: nat, j: nat)
    requires |a| == CHECKED_SIZE && |p| <= MAX_PAYLOAD
    requires DifferAtTwo(Bits(a + p), Bits(b + q), i, j)
    ensures DocumentedChecksum(a, p) != DocumentedChecksum(b, q)
  {
    hide Bits, Crc;
    TwoFlipsChangeCrc(a + p, b + q, i, j);
  }

  // ---------- Errors in the length field ----------

  /** The one word that makes a header accept the bytes before it as the rest of its payload. */
  function Completion(head: seq<byte>, body: seq<byte>): Word {
    Add(Fold(PRESET, body), ShiftN(Fold(PRESET, head), 0xFFFF_FFFF - 64))
  }

  /** 64 steps and the rest of the period undo each other. */
  lemma StepsUndone(u: Word, v: Word)
    ensures ShiftN(u, 64) == v <==> u == ShiftN(v, 0xFFFF_FFFF - 64)
  {
    hide ShiftN;
    ShiftNSplit(u, 64, 0xFFFF_FFFF - 64);
    FullPeriod(u);
    ShiftNSplit(v, 0xFFFF_FFFF - 64, 64);
    FullPeriod(v);
  }

  lemma AddMoves(p: Word, v: Word, u: Word)
    ensures Add(p, v) == u <==> v == Add(p, u)
  {
    hide Add;
    AddAssociates(p, p, v);
    AddAssociates(p, p, u);
    AddSelf(p);
    AddZero(v);
    AddZero(u);
  }

  /**
   * A header that asks for four bytes more than `body`, whatever else it says: of all four-byte
   * words that may follow, exactly one completes a frame that is accepted.
   */
  lemma CompletedByOneWord(head: seq<byte>, body: seq<byte>, v: Word, rest: seq<byte>)
    requires |head| == HEADER_SIZE && head[..6] == Preamble()
    requires Load16(head[8..10]) == |body| + 4 <= MAX_PAYLOAD
    ensures Receive(head + (body + WordBytes(v) + rest), MAX_PAYLOAD).frame.Some? <==> v == Completion(head, body)
  {
    hide Add, Fold, ShiftN, Receive, WordBytes, Load16, Preamble;
    var h, p := Fold(PRESET, head), Fold(PRESET, body);
    var payload := body + WordBytes(v);
    ReceiveByRegisters(head, payload + rest, MAX_PAYLOAD);
    assert (payload + rest)[..|payload|] == payload;
    FoldConcat(PRESET, body, WordBytes(v));
    FoldWord(p, v);
    ShiftNSplit(Add(p, v), 32, 32);
    StepsUndone(Add(p, v), h);
    AddMoves(p, v, ShiftN(h, 0xFFFF_FFFF - 64));
  }

  function RaisedBy4(b: byte): byte {
    b ^ 4
  }

  lemma RaisedValue(b: byte)
    requires b as nat % 8 < 4
    ensures RaisedBy4(b) as nat == b as nat + 4
  {
  }

  lemma FirstBits(b: byte)
    ensures ByteBits(b) == [b & 1 != 0, (b >> 1) & 1 != 0, ((b >> 1) >> 1) & 1 != 0] + LowBits(((b >> 1) >> 1) >> 1, 5)
  {
    hide LowBits;
    LowBitsStep(b, 8);
    LowBitsStep(b >> 1, 7);
    LowBitsStep((b >> 1) >> 1, 6);
  }

  lemma RaisedParts(b: byte)
    ensures var r := RaisedBy4(b);
            && r & 1 == b & 1
            && (r >> 1) & 1 == (b >> 1) & 1
            && (((r >> 1) >> 1) & 1 != 0) != (((b >> 1) >> 1) & 1 != 0)
            && ((r >> 1) >> 1) >> 1 == ((b >> 1) >> 1) >> 1
  {
  }

  lemma RaisedBits(b: byte, r: nat)
    requires r < 8
    ensures ByteBits(RaisedBy4(b))[r] != ByteBits(b)[r] <==> r == 2
  {
    hide LowBits, RaisedBy4, ByteBits;
    FirstBits(b);
    FirstBits(RaisedBy4(b));
    RaisedParts(b);
  }

  /** A frame's header with the third-lowest bit of its length field flipped. */
  function WithLongerLength(f: Frame): (head: seq<byte>)
    ensures |head| == HEADER_SIZE
  {
    var header := EncodeHeader(f.header);
    header[8 := RaisedBy4(header[8])]
  }

  lemma LongerLength(f: Frame)
    requires WellFormed(f, MAX_PAYLOAD) && |f.payload| % 8 < 4
    ensures Load16(WithLongerLength(f)[8..10]) == |f.payload| + 4
    ensures WithLongerLength(f)[..6] == Preamble()
  {
    hide EncodeHeader, WellFormed, Preamble, RaisedBy4;
    var header, head := EncodeHeader(f.header), WithLongerLength(f);
    LengthDecoded(f, MAX_PAYLOAD);
    PreambleEncoded(f, MAX_PAYLOAD);
    LengthValue(header[8..10]);
    LengthValue(head[8..10]);
    RaisedValue(header[8]);
    assert head[..6] == header[..6];
  }

  lemma LengthValue(s: seq<byte>)
    requires |s| == 2
    ensures Load16(s) == s[0] as nat + 256 * (s[1] as nat)
  {
    assert s[1..][1..] == [];
    assert FromLE(s[1..]) == s[1] as nat;
  }

  lemma OneBitLonger(f: Frame)
    ensures DifferAtOne(Bits(EncodeHeader(f.header)), Bits(WithLongerLength(f)), 66)
  {
    hide Bits, ByteBits, RaisedBy4, EncodeHeader;
    var header, head := EncodeHeader(f.header), WithLongerLength(f);
    forall t | 0 <= t < HEADER_BITS
      ensures Bits(header)[t] != Bits(head)[t] <==> t == 66
    {
      var q, r := ByteAndBit(t);
      BitOfByte(header, q, r, t);
      BitOfByte(head, q, r, t);
      RaisedBits(header[q], r);
    }
  }

  /**
   * A single flipped bit can pass: with that bit of the length field flipped, a frame whose payload
   * leaves room is accepted, with the next four bytes as part of it, for exactly one value of theirs.
   */
  lemma SingleFlipCanPass(f: Frame, v: Word, rest: seq<byte>)
    requires WellFormed(f, MAX_PAYLOAD) && |f.payload| % 8 < 4 && |f.payload| + 4 <= MAX_PAYLOAD
    ensures DifferAtOne(Bits(EncodeHeader(f.header)), Bits(WithLongerLength(f)), 66)
    ensures Receive(WithLongerLength(f) + (f.payload + WordBytes(v) + rest), MAX_PAYLOAD).frame.Some?
       <==> v == Completion(WithLongerLength(f), f.payload)
  {
    hide WithLongerLength, Completion, Receive, WordBytes, WellFormed, Bits;
    OneBitLonger(f);
    LongerLength(f);
    CompletedByOneWord(WithLongerLength(f), f.payload, v, rest);
  }

  /** Any other single flipped bit is caught. */
  lemma OtherSingleFlipsRejected(f: Frame, corrupt: seq<byte>, rest: seq<byte>, i: nat)
    requires WellFormed(f, MAX_PAYLOAD) && DifferAtOne(Bits(EncodeFrame(f)), Bits(corrupt), i)
    requires !(64 <= i < 80)
    ensures Receive(corrupt + rest, MAX_PAYLOAD).frame == None
  {
    hide Bits, Receive, EncodeHeader, WellFormed, Feed, ShiftN, Fold;
    var wire := EncodeFrame(f);
    var header := EncodeHeader(f.header);
    var head, body := corrupt[..HEADER_SIZE], corrupt[HEADER_SIZE..];
    assert |Bits(wire)| == 8 * |wire| && |Bits(corrupt)| == 8 * |corrupt|;
    assert wire[..HEADER_SIZE] == header && wire[HEADER_SIZE..] == f.payload;
    BitsOfParts(wire, HEADER_SIZE);
    BitsOfParts(corrupt, HEADER_SIZE);
    LengthUntouched(wire, corrupt, i);
    assert head[8..10] == corrupt[8..10] == wire[8..10] == header[8..10];
    ReceiveSameLength(f, MAX_PAYLOAD, header, f.payload, []);
    ReceiveSameLength(f, MAX_PAYLOAD, head, body, rest);
    assert corrupt + rest == head + (body + rest);
    ReceiveOfEncode(f, MAX_PAYLOAD, []);
    assert wire + [] == header + (f.payload + []);
    FoldIsFeed(PRESET, header);
    FoldIsFeed(PRESET, f.payload);
    FoldIsFeed(PRESET, head);
    FoldIsFeed(PRESET, body);
    if i < HEADER_BITS {
      assert DifferAtOne(Bits(header), Bits(head), i);
      assert Bits(f.payload) == Bits(body);
      OneFlipFeedsApart(Bits(header), Bits(head), i);
    } else {
      assert DifferAtOne(Bits(f.payload), Bits(body), i - HEADER_BITS);
      assert Bits(header) == Bits(head);
      OneFlipFeedsApart(Bits(f.payload), Bits(body), i - HEADER_BITS);
      if ShiftN(Feed(PRESET, Bits(f.payload)), 32) == ShiftN(Feed(PRESET, Bits(body)), 32) {
        ShiftNInjective(Feed(PRESET, Bits(f.payload)), Feed(PRESET, Bits(body)), 32);
      }
    }
  }

  lemma OneFlipFeedsApart(x: seq<bool>, y: seq<bool>, i: nat)
    requires DifferAtOne(x, y, i)
    ensures Feed(PRESET, x) != Feed(PRESET, y)
  {
    hide Feed, ShiftN, Add;
    OneFlip(x, y, i);
    ShiftNKernel(GENERATOR, |x| - i);
    AddCancels(Feed(PRESET, x), Feed(PRESET, y));
  }

  lemma LengthUntouched(x: seq<byte>, y: seq<byte>, i: nat)
    requires |x| >= HEADER_SIZE && DifferAtOne(Bits(x), Bits(y), i) && !(64 <= i < 80)
    ensures |y| == |x| && y[8..10] == x[8..10]
  {
    hide Bits;
    assert |Bits(x)| == 8 * |x| && |Bits(y)| == 8 * |y|;
    BitsOfParts(x, 10);
    BitsOfParts(y, 10);
    BitsOfParts(x[..10], 8);
    BitsOfParts(y[..10], 8);
    assert Bits(x)[..80][64..] == Bits(y)[..80][64..];
    assert x[8..10] == x[..10][8..] && y[8..10] == y[..10][8..];
    BitsInjective(x[8..10], y[8..10]);
  }
}
