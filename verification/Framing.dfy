/**
 * Bridge frames: the 16-byte packed header, the checksum the firmware puts in it, and the
 * receiver as a function on the incoming byte stream. The receiver accepts exactly the encodings
 * of well-formed frames, and rejects every short burst of bit errors in the payload of an accepted
 * one, or in its header with the length field intact.
 */
module Framing {
  import opened Bytes
  import opened Register
  import opened Crc32
  import opened CrcBurst

  const MAGIC: uint32 := 0x52434642
  const VERSION: uint16 := 0x0103
  const HEADER_SIZE: nat := 16
  const CHECKED_SIZE: nat := 12
  const MAX_PAYLOAD: nat := 4096

  datatype Header = Header(magic: uint32, version: uint16, command: byte, result: byte,
                           payloadLen: uint16, sessionId: uint16, crc32: Word)

  datatype Frame = Frame(header: Header, payload: seq<byte>)

  // ---------- Header layout ----------

  function LowByte(x: bv32): byte {
    (x & 0xFF) as byte
  }

  function WordBytes(w: Word): (s: seq<byte>)
    ensures |s| == 4
  {
    var x1 := ByteOutBits(w.bits);
    var x2 := ByteOutBits(x1);
    [LowByte(w.bits), LowByte(x1), LowByte(x2), LowByte(ByteOutBits(x2))]
  }

  function WordOf(b0: byte, b1: byte, b2: byte, b3: byte): Word {
    Word((b0 as bv32) | ((b1 as bv32) << 8) | ((b2 as bv32) << 16) | ((b3 as bv32) << 24))
  }

  function LoadWord(s: seq<byte>): Word
    requires |s| == 4
  {
    WordOf(s[0], s[1], s[2], s[3])
  }

  /** The header bytes the checksum covers. */
  function CheckedBytes(h: Header): (s: seq<byte>)
    ensures |s| == CHECKED_SIZE
  {
    LE(h.magic, 4) + LE(h.version, 2) + [h.command, h.result] + LE(h.payloadLen, 2) + LE(h.sessionId, 2)
  }

  function EncodeHeader(h: Header): (s: seq<byte>)
    ensures |s| == HEADER_SIZE
  {
    CheckedBytes(h) + WordBytes(h.crc32)
  }

  function DecodeHeader(s: seq<byte>): Header
    requires |s| == HEADER_SIZE
  {
    Header(Load32(s[0..4]), Load16(s[4..6]), s[6], s[7], Load16(s[8..10]), Load16(s[10..12]), LoadWord(s[12..16]))
  }

  lemma WordRoundTrip(w: Word)
    ensures LoadWord(WordBytes(w)) == w
  {
    BitsRoundTrip(w.bits);
  }

  lemma BitsRoundTrip(x: bv32)
    ensures WordOf(LowByte(x), LowByte(x >> 8), LowByte((x >> 8) >> 8), LowByte(((x >> 8) >> 8) >> 8)).bits == x
  {
  }

  lemma WordBytesRoundTrip(s: seq<byte>)
    requires |s| == 4
    ensures WordBytes(LoadWord(s)) == s
  {
    BytesRoundTrip(s[0], s[1], s[2], s[3]);
  }

  lemma BytesRoundTrip(b0: byte, b1: byte, b2: byte, b3: byte)
    ensures WordBytes(WordOf(b0, b1, b2, b3)) == [b0, b1, b2, b3]
  {
  }

  lemma DecodeOfEncode(h: Header)
    ensures DecodeHeader(EncodeHeader(h)) == h
  {
    hide LoadWord, WordBytes, LE, FromLE;
    FieldWidths();
    LoadStore(h.magic, 4);
    LoadStore(h.version, 2);
    LoadStore(h.payloadLen, 2);
    LoadStore(h.sessionId, 2);
    WordRoundTrip(h.crc32);
    var s := EncodeHeader(h);
    assert s[0..4] == LE(h.magic, 4) && s[4..6] == LE(h.version, 2);
    assert s[8..10] == LE(h.payloadLen, 2) && s[10..12] == LE(h.sessionId, 2);
    assert s[12..16] == WordBytes(h.crc32);
  }

  lemma EncodeOfDecode(s: seq<byte>)
    requires |s| == HEADER_SIZE
    ensures EncodeHeader(DecodeHeader(s)) == s
    ensures CheckedBytes(DecodeHeader(s)) == s[..CHECKED_SIZE]
  {
    hide LoadWord, WordBytes, LE, FromLE;
    StoreLoad(s[0..4]);
    StoreLoad(s[4..6]);
    StoreLoad(s[8..10]);
    StoreLoad(s[10..12]);
    WordBytesRoundTrip(s[12..16]);
    assert s[..12] == s[0..4] + s[4..6] + [s[6], s[7]] + s[8..10] + s[10..12];
    assert s == s[..12] + s[12..16];
  }

  // ---------- The checksum ----------

  /** What the firmware computes: the two CRCs, combined by exclusive or. */
  function Checksum(checked: seq<byte>, payload: seq<byte>): Word {
    if |payload| > 0 then Add(Crc(checked), Crc(payload)) else Crc(checked)
  }

  /** What the protocol header documents: one CRC over the checked bytes followed by the payload. */
  function DocumentedChecksum(checked: seq<byte>, payload: seq<byte>): Word {
    Crc(checked + payload)
  }

  /** How far the code is from its documentation, on every input. */
  lemma ChecksumVersusDocumented(checked: seq<byte>, payload: seq<byte>)
    ensures Add(Checksum(checked, payload), DocumentedChecksum(checked, payload))
         == Add(Crc(checked), ShiftN(Crc(checked), 8 * |payload|))
    ensures Checksum(checked, payload) == DocumentedChecksum(checked, payload)
       <==> ShiftN(Crc(checked), 8 * |payload|) == Crc(checked)
  {
    hide Add, Crc;
    var x, p := Crc(checked), Crc(payload);
    var y := ShiftN(x, 8 * |payload|);
    CrcConcat(checked, payload);
    if |payload| == 0 {
      assert checked + payload == checked;
      assert y == x;
    } else {
      AddSwap(x, p, p, y);
      AddCommutes(x, p);
      AddSwap(p, x, p, y);
      AddSelf(p);
      AddZero(Add(x, y));
    }
    AddCancels(Checksum(checked, payload), DocumentedChecksum(checked, payload));
    AddCancels(x, y);
  }

  // ---------- The checksum as a register equation ----------

  lemma LowByteIsIndex(w: Word)
    ensures TableIndex(w, 0) == LowByte(w.bits)
  {
    assert w.bits ^ 0 == w.bits;
  }

  lemma NoFifthByte(w: Word)
    ensures ByteOut(ByteOut(ByteOut(ByteOut(w)))) == ZERO
  {
  }

  /** The four bytes of a word, as the register's low byte shows them one after the other. */
  lemma LowBytes(w: Word)
    ensures var (w1, w2, w3) := (ByteOut(w), ByteOut(ByteOut(w)), ByteOut(ByteOut(ByteOut(w))));
            && WordBytes(w) == [TableIndex(w, 0), TableIndex(w1, 0), TableIndex(w2, 0), TableIndex(w3, 0)]
            && ByteOut(w3) == ZERO
  {
    hide TableIndex, LowByte, ByteOutBits;
    LowByteIsIndex(w);
    LowByteIsIndex(ByteOut(w));
    LowByteIsIndex(ByteOut(ByteOut(w)));
    LowByteIsIndex(ByteOut(ByteOut(ByteOut(w))));
    NoFifthByte(w);
  }

  lemma AbsorbLowByte(c: Word, w: Word)
    ensures ShiftN(Add(c, w), 8) == Add(Absorb(c, TableIndex(w, 0)), ByteOut(w))
  {
    hide Add, ShiftN, TableIndex, OfByte, ByteOut;
    var low := OfByte(TableIndex(w, 0));
    AbsorbByTable(w, 0);
    OfByteZero();
    AddZero(w);
    ShiftNAdd(c, w, 8);
    ShiftNAdd(c, low, 8);
    AddAssociates(ShiftN(c, 8), ShiftN(low, 8), ByteOut(w));
  }

  /** Feeding a word's bytes adds the word to the register and advances it by 32 steps. */
  lemma FoldWord(c: Word, w: Word)
    ensures Fold(c, WordBytes(w)) == ShiftN(Add(c, w), 32)
  {
    hide Add, Shift, ShiftN, Absorb, TableIndex, ByteOut, WordBytes;
    var w1, w2, w3 := ByteOut(w), ByteOut(ByteOut(w)), ByteOut(ByteOut(ByteOut(w)));
    LowBytes(w);
    var c1 := Absorb(c, TableIndex(w, 0));
    var c2 := Absorb(c1, TableIndex(w1, 0));
    var c3 := Absorb(c2, TableIndex(w2, 0));
    var c4 := Absorb(c3, TableIndex(w3, 0));
    AbsorbLowByte(c, w);
    AbsorbLowByte(c1, w1);
    AbsorbLowByte(c2, w2);
    AbsorbLowByte(c3, w3);
    AddZero(c4);
    ShiftNSplit(Add(c, w), 8, 24);
    ShiftNSplit(Add(c1, w1), 8, 16);
    ShiftNSplit(Add(c2, w2), 8, 8);
    FoldFour(c, TableIndex(w, 0), TableIndex(w1, 0), TableIndex(w2, 0), TableIndex(w3, 0));
  }

  lemma FoldAppend(c: Word, data: seq<byte>, b: byte)
    ensures Fold(c, data + [b]) == Absorb(Fold(c, data), b)
  {
    assert (data + [b])[..|data|] == data;
  }

  lemma FoldFour(c: Word, b0: byte, b1: byte, b2: byte, b3: byte)
    ensures Fold(c, [b0, b1, b2, b3]) == Absorb(Absorb(Absorb(Absorb(c, b0), b1), b2), b3)
  {
    hide Absorb;
    FoldAppend(c, [], b0);
    FoldAppend(c, [b0], b1);
    FoldAppend(c, [b0, b1], b2);
    FoldAppend(c, [b0, b1, b2], b3);
    assert [] + [b0] == [b0] && [b0] + [b1] == [b0, b1] && [b0, b1] + [b2] == [b0, b1, b2];
    assert [b0, b1, b2] + [b3] == [b0, b1, b2, b3];
  }

  /** The presets cancel: the checksum is the sum of the two registers. */
  lemma ChecksumIsRegisters(checked: seq<byte>, payload: seq<byte>)
    ensures Checksum(checked, payload) == Add(Fold(PRESET, checked), Fold(PRESET, payload))
  {
    hide Add;
    var c, p := Fold(PRESET, checked), Fold(PRESET, payload);
    if |payload| > 0 {
      AddSwap(c, PRESET, p, PRESET);
      AddSelf(PRESET);
      AddZero(Add(c, p));
    }
  }

  /**
   * A checksum field fits exactly when the register, run over all sixteen header bytes, is the
   * payload's register advanced by 32 zero bits.
   */
  lemma ChecksumFits(checked: seq<byte>, crc: Word, payload: seq<byte>)
    ensures crc == Checksum(checked, payload)
       <==> Fold(PRESET, checked + WordBytes(crc)) == ShiftN(Fold(PRESET, payload), 32)
  {
    hide Add, Checksum, ShiftN, WordBytes, Fold;
    var c, p := Fold(PRESET, checked), Fold(PRESET, payload);
    ChecksumIsRegisters(checked, payload);
    FoldConcat(PRESET, checked, WordBytes(crc));
    FoldWord(c, crc);
    AddAssociates(c, c, p);
    AddAssociates(c, c, crc);
    AddSelf(c);
    AddZero(p);
    AddZero(crc);
    if ShiftN(Add(c, crc), 32) == ShiftN(p, 32) {
      ShiftNInjective(Add(c, crc), p, 32);
    }
  }

  // ---------- Sending ----------

  function EncodeFrame(f: Frame): seq<byte> {
    EncodeHeader(f.header) + f.payload
  }

  function EncodeFrames(fs: seq<Frame>): seq<byte>
    decreases |fs|
  {
    if |fs| == 0 then [] else EncodeFrame(fs[0]) + EncodeFrames(fs[1..])
  }

  /** The frame that _send_response puts on the wire. */
  function Response(command: byte, result: byte, payload: seq<byte>, sessionId: uint16): (f: Frame)
    requires |payload| < 0x1_0000
    ensures |payload| <= MAX_PAYLOAD ==> WellFormed(f, MAX_PAYLOAD)
  {
    var h := Header(MAGIC, VERSION, command, result, |payload|, sessionId, ZERO);
    Frame(h.(crc32 := Checksum(CheckedBytes(h), payload)), payload)
  }

  // ---------- Receiving ----------

  predicate WellFormed(f: Frame, maxPayload: nat) {
    && f.header.magic == MAGIC
    && f.header.version == VERSION
    && f.header.payloadLen == |f.payload| <= maxPayload
    && f.header.crc32 == Checksum(CheckedBytes(f.header), f.payload)
  }

  datatype Received = Received(frame: Option<Frame>, rest: seq<byte>)

  /**
   * The receiver on the bytes still to come. A header that is refused leaves its payload unread;
   * a read that the stream cannot satisfy uses up what is left.
   */
  function Receive(stream: seq<byte>, maxPayload: nat): Received {
    if |stream| < HEADER_SIZE then Received(None, [])
    else
      var h := DecodeHeader(stream[..HEADER_SIZE]);
      var body := stream[HEADER_SIZE..];
      if h.magic != MAGIC || h.version != VERSION || h.payloadLen > maxPayload then Received(None, body)
      else if |body| < h.payloadLen then Received(None, [])
      else
        var payload := body[..h.payloadLen];
        var rest := body[h.payloadLen..];
        if Checksum(stream[..CHECKED_SIZE], payload) == h.crc32
        then Received(Some(Frame(h, payload)), rest)
        else Received(None, rest)
  }

  /** The receiver accepts a frame exactly when the stream starts with a well-formed one's encoding. */
  lemma ReceiveExactly(stream: seq<byte>, maxPayload: nat, f: Frame, rest: seq<byte>)
    ensures Receive(stream, maxPayload) == Received(Some(f), rest)
       <==> WellFormed(f, maxPayload) && stream == EncodeFrame(f) + rest
  {
    hide Checksum, DecodeHeader, CheckedBytes;
    if Receive(stream, maxPayload) == Received(Some(f), rest) {
      EncodeOfDecode(stream[..HEADER_SIZE]);
      assert stream[..HEADER_SIZE][..CHECKED_SIZE] == stream[..CHECKED_SIZE];
      var body := stream[HEADER_SIZE..];
      assert body == body[..|f.payload|] + body[|f.payload|..];
      assert stream == stream[..HEADER_SIZE] + body;
    }
    if WellFormed(f, maxPayload) && stream == EncodeFrame(f) + rest {
      ReceiveOfEncode(f, maxPayload, rest);
    }
  }

  lemma ReceiveOfEncode(f: Frame, maxPayload: nat, rest: seq<byte>)
    requires WellFormed(f, maxPayload)
    ensures Receive(EncodeFrame(f) + rest, maxPayload) == Received(Some(f), rest)
  {
    hide Checksum, DecodeHeader, CheckedBytes, WordBytes;
    var s := EncodeFrame(f) + rest;
    DecodeOfEncode(f.header);
    assert s[..HEADER_SIZE] == EncodeHeader(f.header);
    assert s[..CHECKED_SIZE] == CheckedBytes(f.header);
    assert s[HEADER_SIZE..] == f.payload + rest;
  }

  /** Receiving `n` times in a row. */
  function ReceiveMany(stream: seq<byte>, n: nat): (seq<Frame>, seq<byte>)
    decreases n
  {
    if n == 0 then ([], stream)
    else
      var r := Receive(stream, MAX_PAYLOAD);
      var (fs, rest) := ReceiveMany(r.rest, n - 1);
      ((if r.frame.Some? then [r.frame.value] else []) + fs, rest)
  }

  /** Any run of frames, sent back to back, is received frame for frame with no byte left over. */
  lemma {:induction false} StreamRoundTrip(fs: seq<Frame>, rest: seq<byte>)
    requires forall f :: f in fs ==> WellFormed(f, MAX_PAYLOAD)
    ensures ReceiveMany(EncodeFrames(fs) + rest, |fs|) == (fs, rest)
    decreases |fs|
  {
    hide Receive, EncodeFrame, WellFormed;
    if |fs| == 0 {
      assert EncodeFrames(fs) + rest == rest;
    } else {
      var tail := EncodeFrames(fs[1..]) + rest;
      assert EncodeFrames(fs) + rest == EncodeFrame(fs[0]) + tail;
      ReceiveOfEncode(fs[0], MAX_PAYLOAD, tail);
      StreamRoundTrip(fs[1..], rest);
      assert fs == [fs[0]] + fs[1..];
    }
  }

  // ---------- Corruption ----------

  /** A burst in the payload of an accepted frame, its header intact, is rejected. */
  lemma PayloadBurstRejected(f: Frame, maxPayload: nat, corrupt: seq<byte>, rest: seq<byte>, start: nat)
    requires WellFormed(f, maxPayload)
    requires DifferInBurst(f.payload, corrupt, start)
    ensures Receive(EncodeHeader(f.header) + corrupt + rest, maxPayload) == Received(None, rest)
  {
    hide Add, Crc, DecodeHeader, CheckedBytes, WordBytes, DifferInBurst;
    var s := EncodeHeader(f.header) + corrupt + rest;
    DecodeOfEncode(f.header);
    assert |corrupt| == |f.payload| > 0 by { BurstShape(f.payload, corrupt, start); }
    assert s[..HEADER_SIZE] == EncodeHeader(f.header);
    assert s[..CHECKED_SIZE] == CheckedBytes(f.header);
    assert s[HEADER_SIZE..] == corrupt + rest;
    BurstChangesCrc(f.payload, corrupt, start);
    var x := Crc(CheckedBytes(f.header));
    AddCommutes(x, Crc(f.payload));
    AddCommutes(x, Crc(corrupt));
    SameTailCancels(Crc(f.payload), Crc(corrupt), x);
  }

  lemma BurstShape(a: seq<byte>, b: seq<byte>, start: nat)
    requires DifferInBurst(a, b, start)
    ensures |a| == |b| > 0
  {
  }

  lemma LengthField(h: Header)
    ensures CheckedBytes(h)[8..10] == LE(h.payloadLen, 2)
  {
    hide LE;
  }

  lemma WellFormedLength(f: Frame, maxPayload: nat)
    requires WellFormed(f, maxPayload)
    ensures |f.payload| <= maxPayload
  {
  }

  /** The six bytes of magic and version that every frame starts with. */
  function Preamble(): (s: seq<byte>)
    ensures |s| == 6
  {
    LE(MAGIC, 4) + LE(VERSION, 2)
  }

  lemma PreambleDecoded(head: seq<byte>)
    requires |head| == HEADER_SIZE
    ensures DecodeHeader(head).magic == MAGIC && DecodeHeader(head).version == VERSION <==> head[..6] == Preamble()
  {
    hide LoadWord, LE, FromLE;
    FieldWidths();
    LoadStore(MAGIC, 4);
    LoadStore(VERSION, 2);
    StoreLoad(head[0..4]);
    StoreLoad(head[4..6]);
    assert head[..6] == head[0..4] + head[4..6];
    assert head[..6][..4] == head[0..4] && head[..6][4..] == head[4..6];
    assert Preamble()[..4] == LE(MAGIC, 4) && Preamble()[4..] == LE(VERSION, 2);
  }

  lemma PreambleEncoded(f: Frame, maxPayload: nat)
    requires WellFormed(f, maxPayload)
    ensures EncodeHeader(f.header)[..6] == Preamble()
  {
    hide WordBytes, LE, Checksum;
  }

  /**
   * The receiver on any sixteen bytes and whatever follows: it accepts exactly when magic and
   * version stand, the length is admissible and available, and the register over all sixteen bytes
   * is the payload's register advanced by 32 zero bits. Only a header it reads to the end uses up
   * its payload.
   */
  lemma ReceiveByRegisters(head: seq<byte>, body: seq<byte>, maxPayload: nat)
    requires |head| == HEADER_SIZE
    ensures var len := Load16(head[8..10]);
            var r := Receive(head + body, maxPayload);
            var read := head[..6] == Preamble() && len <= maxPayload;
            && (r.frame.Some? <==>
                  read && len <= |body| && Fold(PRESET, head) == ShiftN(Fold(PRESET, body[..len]), 32))
            && r.rest == if !read then body else if len <= |body| then body[len..] else []
  {
    hide LoadWord, WordBytes, Load16, Load32, Checksum, Fold, ShiftN, Preamble;
    var s := head + body;
    var h := DecodeHeader(head);
    PreambleDecoded(head);
    assert s[..HEADER_SIZE] == head && s[HEADER_SIZE..] == body;
    assert s[..CHECKED_SIZE] == head[..CHECKED_SIZE];
    if h.payloadLen <= |body| {
      ChecksumFits(head[..CHECKED_SIZE], h.crc32, body[..h.payloadLen]);
    }
    WordBytesRoundTrip(head[CHECKED_SIZE..]);
    assert head[12..16] == head[CHECKED_SIZE..];
    assert head == head[..CHECKED_SIZE] + WordBytes(h.crc32);
  }

  lemma LengthDecoded(f: Frame, maxPayload: nat)
    requires WellFormed(f, maxPayload)
    ensures Load16(EncodeHeader(f.header)[8..10]) == |f.payload|
  {
    hide LE, FromLE, WordBytes, Checksum;
    LengthField(f.header);
    FieldWidths();
    LoadStore(f.header.payloadLen, 2);
    assert EncodeHeader(f.header)[8..10] == CheckedBytes(f.header)[8..10];
  }

  /** The same with the length field of an accepted frame, and a payload of that length. */
  lemma ReceiveSameLength(f: Frame, maxPayload: nat, head: seq<byte>, body: seq<byte>, rest: seq<byte>)
    requires WellFormed(f, maxPayload) && |head| == HEADER_SIZE && |body| == |f.payload|
    requires head[8..10] == EncodeHeader(f.header)[8..10]
    ensures var r := Receive(head + (body + rest), maxPayload);
            var named := head[..6] == EncodeHeader(f.header)[..6];
            && (r.frame.Some? <==> named && Fold(PRESET, head) == ShiftN(Fold(PRESET, body), 32))
            && r.rest == if named then rest else body + rest
  {
    hide Receive, EncodeHeader, WellFormed, Load16, Fold, ShiftN, Preamble;
    WellFormedLength(f, maxPayload);
    LengthDecoded(f, maxPayload);
    PreambleEncoded(f, maxPayload);
    ReceiveByRegisters(head, body + rest, maxPayload);
    assert (body + rest)[..|body|] == body && (body + rest)[|body|..] == rest;
  }

  /**
   * A burst anywhere in the sixteen header bytes, the checksum field included, that leaves the
   * length field alone is rejected. The payload is used up unless magic or version was hit.
   */
  lemma HeaderBurstRejected(f: Frame, maxPayload: nat, corrupt: seq<byte>, rest: seq<byte>, start: nat)
    requires WellFormed(f, maxPayload)
    requires DifferInBurst(EncodeHeader(f.header), corrupt, start)
    requires corrupt[8..10] == EncodeHeader(f.header)[8..10]
    ensures Receive(corrupt + (f.payload + rest), maxPayload) ==
              Received(None, if corrupt[..6] == EncodeHeader(f.header)[..6] then rest else f.payload + rest)
  {
    hide Fold, ShiftN, Receive, DifferInBurst, EncodeHeader, WellFormed;
    var header := EncodeHeader(f.header);
    BurstShape(header, corrupt, start);
    BurstChangesFold(header, corrupt, start);
    ReceiveOfEncode(f, maxPayload, rest);
    assert EncodeFrame(f) + rest == header + (f.payload + rest);
    ReceiveSameLength(f, maxPayload, header, f.payload, rest);
    ReceiveSameLength(f, maxPayload, corrupt, f.payload, rest);
  }

  /** Any change of the checksum field alone is rejected, and the next frame is in step. */
  lemma ChecksumFieldChangeRejected(f: Frame, maxPayload: nat, wrong: Word, rest: seq<byte>)
    requires WellFormed(f, maxPayload) && wrong != f.header.crc32
    ensures Receive(CheckedBytes(f.header) + WordBytes(wrong) + (f.payload + rest), maxPayload) == Received(None, rest)
  {
    hide Receive, WellFormed, WordBytes, LoadWord, CheckedBytes, Bits;
    var checked, header := CheckedBytes(f.header), EncodeHeader(f.header);
    var corrupt := checked + WordBytes(wrong);
    BitsConcat(checked, WordBytes(wrong));
    BitsConcat(checked, WordBytes(f.header.crc32));
    WordRoundTrip(wrong);
    WordRoundTrip(f.header.crc32);
    assert corrupt[CHECKED_SIZE..] == WordBytes(wrong) && header[CHECKED_SIZE..] == WordBytes(f.header.crc32);
    assert DifferInBurst(header, corrupt, 96);
    HeaderBurstRejected(f, maxPayload, corrupt, rest, 96);
    assert corrupt[..6] == checked[..6] == header[..6];
  }
}
