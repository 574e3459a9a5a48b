/** The bridge's command machine: what one accepted frame does to the device, and what it answers. */
module BridgeSemantics {
  import opened Bytes
  import opened Audit
  import opened VaultStore
  import opened BunkerStore
  import opened VmSemantics
  import opened Framing

  const HELLO: byte := 0x01
  const CHALLENGE: byte := 0x02
  const RESPONSE: byte := 0x03
  const SESSION_OK: byte := 0x04
  const VERIFY_PQC: byte := 0x10
  const VERIFY_RESULT: byte := 0x11
  const EXEC_ACODE: byte := 0x20
  const EXEC_RESULT: byte := 0x21
  const PING: byte := 0x40
  const PONG: byte := 0x41
  const GET_STATUS: byte := 0x42
  const STATUS_REPORT: byte := 0x43
  const PILL_OFF: byte := 0xFF

  const OK: byte := 0x00
  const ERR_SIG_FAIL: byte := 0x01
  const ERR_NO_SESSION: byte := 0x02
  const ERR_BAD_CMD: byte := 0x06

  const NONCE_WORDS: nat := 4
  const RESPONSE_SIZE: nat := 96
  const VERIFY_REQUEST_SIZE: nat := 2456
  const MSG_LEN_OFFSET: nat := 2452

  /** Readings that GET_STATUS reports. */
  datatype Readings = Readings(timechainValid: bool, monotonic: uint32, voltage: uint32, temperature: uint16)

  type NonceWords = w: seq<uint32> | |w| == 4 witness [0, 0, 0, 0]

  /** What the hardware answers while one command is handled. */
  datatype Draws = Draws(ephPub: Key, ephPriv: Key, nonce: NonceWords, randomId: uint32,
                         locked: bool, moduleVerdict: bool, requestVerdict: bool,
                         watch: nat -> Watch, readings: Readings)

  /** `keysUsed` lists the private keys that accepted responses took; no code reads it. */
  datatype BridgeState = BridgeState(machine: Machine, active: bool, sessionId: uint16, keysUsed: seq<seq<byte>>) {
    predicate Valid() {
      machine.Valid()
    }

    function Logged(event: Event, data: nat): BridgeState {
      this.(machine := machine.Logged(event, data))
    }

    function WithBunker(b: BunkerState): BridgeState {
      this.(machine := machine.(bunker := b))
    }
  }

  /** An accepted frame with the answers the hardware gives during it. */
  datatype Command = Command(code: byte, payload: seq<byte>, draws: Draws)

  datatype Config = Config(strict: bool, clock: nat -> nat)

  /** A reply payload: no handler fills more than the receive buffer holds. */
  type Payload = p: seq<byte> | |p| <= MAX_PAYLOAD witness []

  /** What a handler hands to the sender, with the session id at that moment. */
  datatype Answer = Answer(command: byte, result: byte, payload: Payload, sessionId: uint16)

  datatype StepResult = StepResult(state: BridgeState, replies: seq<Answer>)

  function Reply(s: BridgeState, command: byte, result: byte, payload: Payload): StepResult {
    StepResult(s, [Answer(command, result, payload, s.sessionId)])
  }

  function WordsImage(words: seq<uint32>): (s: seq<byte>)
    ensures |s| == 4 * |words|
  {
    if |words| == 0 then [] else WordsImage(words[..|words| - 1]) + LE(words[|words| - 1], 4)
  }

  function Hello(s: BridgeState, d: Draws): StepResult
    requires s.Valid()
  {
    Reply(s.WithBunker(s.machine.bunker.Stored(d.ephPriv)), CHALLENGE, OK, d.ephPub + WordsImage(d.nonce))
  }

  /** The session id in the reply's payload is big-endian. */
  function SessionImage(id: uint16): seq<byte> {
    [(id / 256) as byte, (id % 256) as byte]
  }

  function Respond(s: BridgeState, payload: seq<byte>, d: Draws): StepResult
    requires s.Valid()
  {
    if |payload| < RESPONSE_SIZE then Reply(s, SESSION_OK, ERR_BAD_CMD, [])
    else
      OpenSession(s.WithBunker(s.machine.bunker.Taken()), s.machine.bunker.Slot(), d)
  }

  /** The session id is the low half of a random word; the key that was taken is used up. */
  function OpenSession(s: BridgeState, key: seq<byte>, d: Draws): StepResult {
    var id := d.randomId % 0x1_0000;
    var open := s.(active := true, sessionId := id, keysUsed := s.keysUsed + [key]);
    Reply(open.Logged(BridgeSessionStart, id), SESSION_OK, OK, SessionImage(id))
  }

  function VerifyPqc(s: BridgeState, payload: seq<byte>, d: Draws): StepResult
    requires s.Valid()
  {
    if !s.active then Reply(s, VERIFY_RESULT, ERR_NO_SESSION, [])
    else if |payload| < VERIFY_REQUEST_SIZE then Reply(s, VERIFY_RESULT, ERR_BAD_CMD, [])
    else
      VerifyInBunker(s.Logged(BridgePqcVerifyReq, Load32(payload[MSG_LEN_OFFSET..VERIFY_REQUEST_SIZE])), d)
  }

  /** The check itself, between entering and leaving the bunker. */
  function VerifyInBunker(s: BridgeState, d: Draws): StepResult {
    var left := s.WithBunker(s.machine.bunker.Exited());
    if s.machine.vault.ready then
      var answer := if d.requestVerdict then OK else ERR_SIG_FAIL;
      Reply(left.Logged(BridgePqcVerifyResult, if d.requestVerdict then 0 else 1), VERIFY_RESULT, answer, [])
    else Reply(left, VERIFY_RESULT, ERR_BAD_CMD, [])
  }

  /** The engine's result code as the low byte of its negative C value. */
  function ResultByte(r: VmResult): byte {
    match r
    case VmOk => 0x00
    case NullInput => 0xFF
    case TooSmall => 0xFE
    case TooLarge => 0xFD
    case SigInvalid => 0xFC
    case UnknownOpcode => 0xFB
    case StackOverflow => 0xFA
    case PillOff => 0xF8
  }

  function ExecAcode(s: BridgeState, payload: seq<byte>, d: Draws, cfg: Config): StepResult
    requires s.Valid()
  {
    if !s.active then Reply(s, EXEC_RESULT, ERR_NO_SESSION, [])
    else
      var m := s.machine.Logged(BridgeAcodeExec, |payload|);
      var env := Env(cfg.strict, cfg.clock, d.watch);
      var (m', result) := Execute(true, Some(payload), d.locked, d.moduleVerdict, env, m);
      Reply(s.(machine := m'), EXEC_RESULT, ResultByte(result), [])
  }

  function FlagByte(b: bool): byte {
    if b then 1 else 0
  }

  /** The packed status report; the packet counters are never updated. */
  function StatusImage(r: Readings, inBunker: bool): (s: seq<byte>)
    ensures |s| == 20
  {
    [1, 3, FlagByte(inBunker), FlagByte(r.timechainValid)] + LE(r.monotonic, 4)
      + LE(r.voltage % 0x1_0000, 2) + LE(r.temperature, 2) + Zeros(8)
  }

  function GetStatus(s: BridgeState, d: Draws): StepResult {
    Reply(s, STATUS_REPORT, OK, StatusImage(d.readings, s.machine.vm.inBunker))
  }

  function PillOffCommand(s: BridgeState): StepResult {
    var wiped := s.(machine := s.machine.(vault := s.machine.vault.Wiped()));
    StepResult(wiped.Logged(TamperVault, 0xFFFF_FFFF).Logged(PillOffTriggered, EXTERNAL), [])
  }

  function Step(s: BridgeState, c: Command, cfg: Config): (r: StepResult)
    requires s.Valid()
    ensures r.state.Valid()
  {
    if c.code == HELLO then Hello(s, c.draws)
    else if c.code == RESPONSE then Respond(s, c.payload, c.draws)
    else if c.code == VERIFY_PQC then VerifyPqc(s, c.payload, c.draws)
    else if c.code == EXEC_ACODE then ExecAcode(s, c.payload, c.draws, cfg)
    else if c.code == PING then Reply(s, PONG, OK, [])
    else if c.code == GET_STATUS then GetStatus(s, c.draws)
    else if c.code == PILL_OFF then PillOffCommand(s)
    else Reply(s.Logged(BridgeUnknownCmd, c.code as nat), c.code, ERR_BAD_CMD, [])
  }

  /** The frame that carries an answer. */
  function AnswerFrame(a: Answer): (f: Frame)
    ensures WellFormed(f, MAX_PAYLOAD)
  {
    Response(a.command, a.result, a.payload, a.sessionId)
  }

  function AnswerFrames(answers: seq<Answer>): (fs: seq<Frame>)
    ensures |fs| == |answers|
  {
    seq(|answers|, i requires 0 <= i < |answers| => AnswerFrame(answers[i]))
  }

  datatype TurnResult = TurnResult(state: BridgeState, rest: seq<byte>, replies: seq<Answer>)

  /** One turn of the process loop on the incoming bytes: refused bytes change nothing but the stream. */
  function Turn(s: BridgeState, stream: seq<byte>, d: Draws, cfg: Config): (r: TurnResult)
    requires s.Valid()
    ensures r.state.Valid()
  {
    var got := Receive(stream, MAX_PAYLOAD);
    match got.frame
    case None => TurnResult(s, got.rest, [])
    case Some(f) =>
      var r := Step(s, Command(f.header.command, f.payload, d), cfg);
      TurnResult(r.state, got.rest, r.replies)
  }

  /** A run of commands: the final state and every reply in order. */
  function RunCommands(s: BridgeState, cs: seq<Command>, cfg: Config): (r: StepResult)
    requires s.Valid()
    ensures r.state.Valid()
    decreases |cs|
  {
    if |cs| == 0 then StepResult(s, [])
    else
      var one := Step(s, cs[0], cfg);
      var rest := RunCommands(one.state, cs[1..], cfg);
      StepResult(rest.state, one.replies + rest.replies)
  }

  /** The device after power-on, before its vault is provisioned. */
  function Booted(): (s: BridgeState)
    ensures s.Valid()
  {
    BridgeState(Machine(POWER_ON, UNPROVISIONED, EMPTY_BUNKER, []), false, 0, [])
  }
}
