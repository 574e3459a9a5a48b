/**
 * A-Code: the instructions of the Aurora VM and their byte encoding. Decoding is a linear sweep
 * over the module; bytes that are no opcode become one-byte instructions, and a last opcode whose
 * operands are cut off stays behind as the tail.
 */
module ACode {
  import opened Bytes

  const OP_INIT_MOD: byte := 0x01
  const OP_IDENTITY_GEN: byte := 0x05
  const OP_VFS_STORE: byte := 0x10
  const OP_VFS_FETCH: byte := 0x11
  const OP_BUS_PUB: byte := 0x20
  const OP_EXT_MOUNT: byte := 0x30
  const OP_REFLEX_ACTION: byte := 0x65
  const OP_HALT: byte := 0x99
  const OP_LUME_VOICE: byte := 0xA0

  datatype Instr =
    | InitMod
    | IdentityGen
    | VfsStore(storeId: uint16)
    | VfsFetch(fetchId: uint16)
    | BusPub
    | ExtMount(slot: byte)
    | ReflexAction
    | LumeVoice
    | Halt
    | Unknown(op: byte)

  datatype Program = Program(instrs: seq<Instr>, tail: seq<byte>)

  /** Bytes of operand that the opcode needs. */
  function Operands(op: byte): nat {
    if op == OP_VFS_STORE || op == OP_VFS_FETCH then 2 else if op == OP_EXT_MOUNT then 1 else 0
  }

  predicate IsOpcode(op: byte) {
    op in {OP_INIT_MOD, OP_IDENTITY_GEN, OP_VFS_STORE, OP_VFS_FETCH, OP_BUS_PUB, OP_EXT_MOUNT,
           OP_REFLEX_ACTION, OP_HALT, OP_LUME_VOICE}
  }

  /** An instruction that some byte sequence decodes to. */
  predicate Proper(i: Instr) {
    i.Unknown? ==> !IsOpcode(i.op)
  }

  /** Too short to hold its first opcode's operands. */
  predicate Truncated(tail: seq<byte>) {
    |tail| > 0 ==> |tail| < 1 + Operands(tail[0])
  }

  predicate ProperProgram(p: Program) {
    Truncated(p.tail) && forall k :: 0 <= k < |p.instrs| ==> Proper(p.instrs[k])
  }

  function EncodeInstr(i: Instr): (s: seq<byte>)
    ensures |s| == Size(i)
  {
    match i
    case InitMod => [OP_INIT_MOD]
    case IdentityGen => [OP_IDENTITY_GEN]
    case VfsStore(id) => [OP_VFS_STORE] + LE(id, 2)
    case VfsFetch(id) => [OP_VFS_FETCH] + LE(id, 2)
    case BusPub => [OP_BUS_PUB]
    case ExtMount(slot) => [OP_EXT_MOUNT, slot]
    case ReflexAction => [OP_REFLEX_ACTION]
    case LumeVoice => [OP_LUME_VOICE]
    case Halt => [OP_HALT]
    case Unknown(op) => [op]
  }

  function Size(i: Instr): nat {
    match i
    case VfsStore(_) => 3
    case VfsFetch(_) => 3
    case ExtMount(_) => 2
    case _ => 1
  }

  function DecodeInstr(code: seq<byte>): (i: Instr)
    requires |code| > 0 && |code| >= 1 + Operands(code[0])
    ensures Proper(i) && Size(i) == 1 + Operands(code[0])
  {
    var op := code[0];
    if op == OP_INIT_MOD then InitMod
    else if op == OP_IDENTITY_GEN then IdentityGen
    else if op == OP_VFS_STORE then VfsStore(Load16(code[1..3]))
    else if op == OP_VFS_FETCH then VfsFetch(Load16(code[1..3]))
    else if op == OP_BUS_PUB then BusPub
    else if op == OP_EXT_MOUNT then ExtMount(code[1])
    else if op == OP_REFLEX_ACTION then ReflexAction
    else if op == OP_LUME_VOICE then LumeVoice
    else if op == OP_HALT then Halt
    else Unknown(op)
  }

  function Encode(instrs: seq<Instr>): seq<byte>
    decreases |instrs|
  {
    if |instrs| == 0 then [] else EncodeInstr(instrs[0]) + Encode(instrs[1..])
  }

  function Decode(code: seq<byte>): (p: Program)
    ensures ProperProgram(p)
    ensures |p.instrs| + |p.tail| <= |code|
    decreases |code|
  {
    if |code| == 0 then Program([], [])
    else if |code| < 1 + Operands(code[0]) then Program([], code)
    else
      var i := DecodeInstr(code);
      var rest := Decode(code[Size(i)..]);
      Program([i] + rest.instrs, rest.tail)
  }

  lemma EncodeOfDecodeInstr(code: seq<byte>)
    requires |code| > 0 && |code| >= 1 + Operands(code[0])
    ensures EncodeInstr(DecodeInstr(code)) == code[..Size(DecodeInstr(code))]
  {
    hide LE, FromLE, IsOpcode;
    if Operands(code[0]) == 2 {
      StoreLoad(code[1..3]);
      assert code[..3] == [code[0]] + code[1..3];
    }
  }

  lemma DecodeOfEncodeInstr(i: Instr, rest: seq<byte>)
    requires Proper(i)
    ensures var s := EncodeInstr(i) + rest;
            |s| >= 1 + Operands(s[0]) && DecodeInstr(s) == i
  {
    hide LE, FromLE;
    FieldWidths();
    var s := EncodeInstr(i) + rest;
    match i
    case VfsStore(id) => LoadStore(id, 2); assert s[1..3] == LE(id, 2);
    case VfsFetch(id) => LoadStore(id, 2); assert s[1..3] == LE(id, 2);
    case _ =>
  }

  lemma DecodeUnfold(code: seq<byte>)
    requires |code| > 0 && |code| >= 1 + Operands(code[0])
    ensures var i := DecodeInstr(code);
            Decode(code) == Program([i] + Decode(code[Size(i)..]).instrs, Decode(code[Size(i)..]).tail)
  {
    hide DecodeInstr, Operands, Size, ProperProgram;
  }

  lemma EncodedFirst(code: seq<byte>)
    requires |code| > 0 && |code| >= 1 + Operands(code[0])
    ensures code == EncodeInstr(DecodeInstr(code)) + code[Size(DecodeInstr(code))..]
  {
    hide EncodeInstr, DecodeInstr, Operands;
    EncodeOfDecodeInstr(code);
    assert code == code[..Size(DecodeInstr(code))] + code[Size(DecodeInstr(code))..];
  }

  /** One step of the sweep. */
  lemma DecodeStep(code: seq<byte>)
    requires |code| > 0 && |code| >= 1 + Operands(code[0])
    ensures var i := DecodeInstr(code);
            var rest := Decode(code[Size(i)..]);
            Decode(code) == Program([i] + rest.instrs, rest.tail) &&
            code == EncodeInstr(i) + code[Size(i)..]
  {
    hide *;
    DecodeUnfold(code);
    EncodedFirst(code);
  }

  lemma EncodeCons(i: Instr, rest: seq<Instr>)
    ensures Encode([i] + rest) == EncodeInstr(i) + Encode(rest)
  {
    assert ([i] + rest)[1..] == rest;
  }

  /** Decoding loses nothing: the instructions and the tail encode back to the module. */
  lemma {:induction false} EncodeOfDecode(code: seq<byte>)
    ensures Encode(Decode(code).instrs) + Decode(code).tail == code
    decreases |code|
  {
    hide EncodeInstr, DecodeInstr, Operands, Encode, Decode;
    if |code| == 0 || |code| < 1 + Operands(code[0]) {
      NothingDecoded(code);
    } else {
      var i := DecodeInstr(code);
      var rest := code[Size(i)..];
      DecodeStep(code);
      EncodeOfDecode(rest);
      EncodeCons(i, Decode(rest).instrs);
    }
  }

  lemma NothingDecoded(code: seq<byte>)
    requires Truncated(code)
    ensures Decode(code) == Program([], code)
    ensures Encode([]) + code == code
  {
  }

  /** Encoding loses nothing: every program with a truncated tail is what its bytes decode to. */
  lemma {:induction false} DecodeOfEncode(p: Program)
    requires ProperProgram(p)
    ensures Decode(Encode(p.instrs) + p.tail) == p
    decreases |p.instrs|
  {
    hide EncodeInstr, DecodeInstr, Decode, Proper, Size, Operands;
    if |p.instrs| == 0 {
      NothingDecoded(p.tail);
      assert Encode(p.instrs) + p.tail == p.tail;
    } else {
      var i, q := p.instrs[0], Program(p.instrs[1..], p.tail);
      var rest := Encode(q.instrs) + q.tail;
      DecodeOfEncode(q);
      DecodeOfEncodeInstr(i, rest);
      var code := EncodeInstr(i) + rest;
      DecodeStep(code);
      assert code[Size(i)..] == rest;
      assert Encode(p.instrs) + p.tail == code;
      assert p.instrs == [i] + q.instrs;
    }
  }
}
