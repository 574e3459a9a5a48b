/** The bridge on the wire: the receiver, the sender and the handlers, in place. */
module Bridge {
  import opened Bytes
  import opened Audit
  import opened Register
  import opened Crc32
  import opened Framing
  import opened VaultStore
  import opened BunkerStore
  import opened VmSemantics
  import opened VmEngine
  import opened BridgeSemantics

  /** The serial line: the bytes still to arrive, and the bytes sent so far. */
  class Uart {
    var rx: seq<byte>
    var tx: seq<byte>

    constructor (incoming: seq<byte>)
      ensures rx == incoming && tx == []
    {
      rx, tx := incoming, [];
    }

    /** Fills the first `len` bytes of `data`; false when the line has fewer left, all of which are then used up. */
    method Receive(data: array<byte>, len: nat) returns (ok: bool)
      requires len <= data.Length
      modifies this`rx, data
      ensures ok <==> len <= old(|rx|)
      ensures ok ==> rx == old(rx)[len..] && data[..] == old(rx)[..len] + old(data[..])[len..]
      ensures !ok ==> rx == []
    {
      var i := 0;
      while i < len && rx != []
        invariant i <= len && i <= old(|rx|) && rx == old(rx)[i..]
        invariant forall k :: 0 <= k < i ==> data[k] == old(rx)[k]
        invariant forall k :: i <= k < data.Length ==> data[k] == old(data[k])
      {
        data[i] := rx[0];
        rx := rx[1..];
        i := i + 1;
      }
      return i == len;
    }

    method Send(data: seq<byte>)
      modifies this`tx
      ensures tx == old(tx) + data
    {
      for i := 0 to |data|
        invariant tx == old(tx) + data[..i]
      {
        tx := tx + [data[i]];
      }
      assert data[..|data|] == data;
    }
  }

  class Hsm {
    const uart: Uart
    const vm: Vm
    const payload: array<byte>
    var active: bool
    var sessionId: uint16
    ghost var keysUsed: seq<seq<byte>>

    ghost predicate Valid() {
      && vm.Valid()
      && payload.Length == MAX_PAYLOAD
      && payload != vm.bunker.eph && payload != vm.vault.mpk
    }

    ghost function State(): BridgeState
      reads this, vm, vm.log, vm.vault, vm.vault.counts, vm.vault.mpk, vm.bunker, vm.bunker.eph
    {
      BridgeState(vm.State(), active, sessionId, keysUsed)
    }

    constructor (uart: Uart, vm: Vm)
      requires vm.Valid()
      ensures Valid() && fresh(payload) && this.uart == uart && this.vm == vm
      ensures State() == BridgeState(vm.State(), false, 0, [])
    {
      this.uart, this.vm := uart, vm;
      payload := new byte[MAX_PAYLOAD](_ => 0);
      active, sessionId := false, 0;
      keysUsed := [];
    }

    /** Reads one frame; the payload goes to the start of the static buffer. */
    method RecvFrame() returns (ok: bool, header: Header)
      requires Valid()
      modifies uart`rx, payload
      ensures uart.rx == Receive(old(uart.rx), MAX_PAYLOAD).rest
      ensures ok == Receive(old(uart.rx), MAX_PAYLOAD).frame.Some?
      ensures ok ==>
                header.payloadLen <= MAX_PAYLOAD &&
                Receive(old(uart.rx), MAX_PAYLOAD).frame.value == Frame(header, payload[..header.payloadLen])
    {
      hide Add, Crc, DecodeHeader;
      ghost var stream := uart.rx;
      var raw := new byte[HEADER_SIZE](_ => 0);
      var got := uart.Receive(raw, HEADER_SIZE);
      header := DecodeHeader(raw[..]);
      if !got { return false, header; }
      assert raw[..] == stream[..HEADER_SIZE];
      ghost var body := uart.rx;
      if header.magic != MAGIC || header.version != VERSION || header.payloadLen > MAX_PAYLOAD {
        return false, header;
      }
      var len := header.payloadLen;
      if len > 0 {
        got := uart.Receive(payload, len);
        if !got { return false, header; }
        assert payload[..len] == body[..len];
      }
      assert payload[..len] == body[..len] && uart.rx == body[len..];
      var expected := ComputeCrc32(raw[..CHECKED_SIZE]);
      assert raw[..CHECKED_SIZE] == stream[..CHECKED_SIZE];
      if len > 0 {
        var more := ComputeCrc32(payload[..len]);
        XorIsAdd(expected, more);
        expected := expected ^ more;
      }
      return Word(expected) == header.crc32, header;
    }

    method SendResponse(command: byte, result: byte, data: Payload)
      modifies uart`tx
      ensures uart.tx == old(uart.tx) + EncodeFrames(AnswerFrames([Answer(command, result, data, sessionId)]))
    {
      hide Add, Crc, EncodeHeader, CheckedBytes;
      var header := Header(MAGIC, VERSION, command, result, |data|, sessionId, ZERO);
      var crc := ComputeCrc32(CheckedBytes(header));
      if |data| > 0 {
        var more := ComputeCrc32(data);
        XorIsAdd(crc, more);
        crc := crc ^ more;
      }
      header := header.(crc32 := Word(crc));
      uart.Send(EncodeHeader(header));
      if |data| > 0 {
        uart.Send(data);
      }
      assert AnswerFrames([Answer(command, result, data, sessionId)]) == [Frame(header, data)];
    }

    // ---------- Handlers ----------

    method HandleHello(d: Draws)
      requires Valid()
      modifies uart`tx, vm.bunker.eph
      ensures var r := Hello(old(State()), d);
              State() == r.state && uart.tx == old(uart.tx) + EncodeFrames(AnswerFrames(r.replies))
    {
      hide AnswerFrames, EncodeFrames;
      var nonce := [];
      for i := 0 to NONCE_WORDS
        invariant nonce == WordsImage(d.nonce[..i])
      {
        assert d.nonce[..i + 1][..i] == d.nonce[..i];
        nonce := nonce + LE(d.nonce[i], 4);
      }
      assert d.nonce[..NONCE_WORDS] == d.nonce;
      vm.bunker.StoreEphemeral(d.ephPriv);
      SendResponse(CHALLENGE, OK, d.ephPub + nonce);
    }

    method StartSession(key: seq<byte>, d: Draws)
      requires Valid()
      modifies this, uart`tx, vm.log
      ensures var r := OpenSession(old(State()), key, d);
              State() == r.state && uart.tx == old(uart.tx) + EncodeFrames(AnswerFrames(r.replies))
    {
      hide AnswerFrames, EncodeFrames;
      keysUsed := keysUsed + [key];
      sessionId := d.randomId % 0x1_0000;
      active := true;
      vm.log.Add(BridgeSessionStart, sessionId);
      SendResponse(SESSION_OK, OK, [(sessionId / 256) as byte, (sessionId % 256) as byte]);
    }

    method HandleResponse(data: seq<byte>, d: Draws)
      requires Valid()
      modifies this, uart`tx, vm.log, vm.bunker.eph
      ensures var r := Respond(old(State()), data, d);
              State() == r.state && uart.tx == old(uart.tx) + EncodeFrames(AnswerFrames(r.replies))
    {
      hide AnswerFrames, EncodeFrames, OpenSession;
      if |data| < RESPONSE_SIZE {
        SendResponse(SESSION_OK, ERR_BAD_CMD, []);
        return;
      }
      var key := vm.bunker.RetrieveEphemeral(KEY_LEN);
      assert State() == old(State()).WithBunker(old(State()).machine.bunker.Taken());
      StartSession(key, d);
    }

    method CheckRequest(d: Draws)
      requires Valid()
      modifies uart`tx, vm.log, vm.bunker, vm.bunker.eph
      ensures var r := VerifyInBunker(old(State()), d);
              State() == r.state && uart.tx == old(uart.tx) + EncodeFrames(AnswerFrames(r.replies))
    {
      hide AnswerFrames, EncodeFrames;
      vm.bunker.Enter();
      var mpk := vm.vault.GetSentinelMpk(MPK_SIZE);
      if mpk.Some? {
        vm.log.Add(BridgePqcVerifyResult, if d.requestVerdict then 0 else 1);
        SendResponse(VERIFY_RESULT, if d.requestVerdict then OK else ERR_SIG_FAIL, []);
      } else {
        SendResponse(VERIFY_RESULT, ERR_BAD_CMD, []);
      }
      vm.bunker.Exit();
    }

    method HandleVerifyPqc(data: seq<byte>, d: Draws)
      requires Valid()
      modifies uart`tx, vm.log, vm.bunker, vm.bunker.eph
      ensures var r := VerifyPqc(old(State()), data, d);
              State() == r.state && uart.tx == old(uart.tx) + EncodeFrames(AnswerFrames(r.replies))
    {
      hide AnswerFrames, Load32, EncodeFrames, VerifyInBunker;
      if !active {
        SendResponse(VERIFY_RESULT, ERR_NO_SESSION, []);
        return;
      }
      if |data| < VERIFY_REQUEST_SIZE {
        SendResponse(VERIFY_RESULT, ERR_BAD_CMD, []);
        return;
      }
      vm.log.Add(BridgePqcVerifyReq, Load32(data[MSG_LEN_OFFSET..VERIFY_REQUEST_SIZE]));
      CheckRequest(d);
    }

    method HandleExecAcode(data: seq<byte>, d: Draws, cfg: Config)
      requires Valid() && cfg.strict == vm.strict
      modifies uart`tx, vm, vm.log, vm.vault, vm.vault.counts, vm.vault.mpk, vm.bunker, vm.bunker.eph
      ensures var r := ExecAcode(old(State()), data, d, cfg);
              State() == r.state && uart.tx == old(uart.tx) + EncodeFrames(AnswerFrames(r.replies))
    {
      hide AnswerFrames, EncodeFrames, Execute;
      if !active {
        SendResponse(EXEC_RESULT, ERR_NO_SESSION, []);
        return;
      }
      vm.log.Add(BridgeAcodeExec, |data|);
      var result := vm.ExecuteModule(true, Some(data), d.locked, d.moduleVerdict, Env(cfg.strict, cfg.clock, d.watch));
      SendResponse(EXEC_RESULT, ResultByte(result), []);
    }

    method HandleGetStatus(d: Draws)
      requires Valid()
      modifies uart`tx
      ensures var r := GetStatus(old(State()), d);
              State() == r.state && uart.tx == old(uart.tx) + EncodeFrames(AnswerFrames(r.replies))
    {
      hide AnswerFrames, EncodeFrames;
      var r := d.readings;
      var status := [1, 3, FlagByte(vm.inBunker), FlagByte(r.timechainValid)] + LE(r.monotonic, 4)
        + LE(r.voltage % 0x1_0000, 2) + LE(r.temperature, 2) + Zeros(8);
      SendResponse(STATUS_REPORT, OK, status);
    }

    method HandlePillOff()
      requires Valid()
      modifies vm.log, vm.vault, vm.vault.mpk
      ensures var r := PillOffCommand(old(State()));
              State() == r.state && uart.tx == old(uart.tx) + EncodeFrames(AnswerFrames(r.replies))
    {
      vm.vault.EmergencyWipe();
      vm.log.Add(PillOffTriggered, EXTERNAL);
    }

    method Handle(c: Command, cfg: Config)
      requires Valid() && cfg.strict == vm.strict
      modifies this, uart`tx, vm, vm.log, vm.vault, vm.vault.counts, vm.vault.mpk, vm.bunker, vm.bunker.eph
      ensures var r := Step(old(State()), c, cfg);
              State() == r.state && uart.tx == old(uart.tx) + EncodeFrames(AnswerFrames(r.replies))
    {
      hide Hello, Respond, VerifyPqc, ExecAcode, GetStatus, PillOffCommand, AnswerFrames, EncodeFrames;
      if c.code == HELLO {
        HandleHello(c.draws);
      } else if c.code == RESPONSE {
        HandleResponse(c.payload, c.draws);
      } else if c.code == VERIFY_PQC {
        HandleVerifyPqc(c.payload, c.draws);
      } else if c.code == EXEC_ACODE {
        HandleExecAcode(c.payload, c.draws, cfg);
      } else if c.code == PING {
        SendResponse(PONG, OK, []);
      } else if c.code == GET_STATUS {
        HandleGetStatus(c.draws);
      } else if c.code == PILL_OFF {
        HandlePillOff();
      } else {
        NatOfByte(c.code);
        vm.log.Add(BridgeUnknownCmd, c.code as nat);
        SendResponse(c.code, ERR_BAD_CMD, []);
      }
    }

    /** One turn of the bridge's process loop. */
    method Process(d: Draws, cfg: Config)
      requires Valid() && cfg.strict == vm.strict
      modifies this, uart, payload, vm, vm.log, vm.vault, vm.vault.counts, vm.vault.mpk, vm.bunker, vm.bunker.eph
      ensures var r := Turn(old(State()), old(uart.rx), d, cfg);
              State() == r.state && uart.rx == r.rest && uart.tx == old(uart.tx) + EncodeFrames(AnswerFrames(r.replies))
    {
      hide Receive, Step;
      var ok, header := RecvFrame();
      if !ok { return; }
      Handle(Command(header.command, payload[..header.payloadLen], d), cfg);
    }
  }
}
