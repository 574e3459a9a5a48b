/**
 * What the bridge answers to each command and puts on the wire, with command codes, result codes,
 * sizes and log values as plain numbers; and that no private key ever reaches an answer.
 */
module BridgeOutcomes {
  import opened Bytes
  import opened Audit
  import opened Register
  import opened Crc32
  import opened ACode
  import opened WearLevelling
  import opened BunkerStore
  import opened VmSemantics
  import opened VmProperties
  import opened VmOutcomes
  import opened Framing
  import opened BridgeSemantics
  import opened BridgeProperties

  // ---------- The handshake ----------

  lemma {:induction false} NonceAt(words: seq<uint32>, i: nat)
    requires i < |words|
    ensures WordsImage(words)[4 * i..4 * i + 4] == LE(words[i], 4)
    decreases |words|
  {
    hide LE;
    var n := |words| - 1;
    if i < n {
      NonceAt(words[..n], i);
    }
  }

  /** HELLO keeps the private key and answers with the public key and the nonce, changing nothing else. */
  lemma HelloOutcome(s: BridgeState, c: Command, cfg: Config)
    requires s.Valid() && c.code == 0x01
    ensures var r := Step(s, c, cfg);
            var b := s.machine.bunker;
            && r.state == s.(machine := s.machine.(bunker := b.(eph := c.draws.ephPriv + b.eph[32..])))
            && |r.replies| == 1 && r.replies[0].command == 0x02 && r.replies[0].result == 0x00
            && r.replies[0].sessionId == s.sessionId
            && var p := r.replies[0].payload;
               && |p| == 48 && p[..32] == c.draws.ephPub
               && forall i :: 0 <= i < 4 ==> p[32 + 4 * i..36 + 4 * i] == LE(c.draws.nonce[i], 4)
  {
    hide LE, WordsImage;
    var d := c.draws;
    var image := WordsImage(d.nonce);
    assert d.ephPriv[..32] == d.ephPriv;
    forall i | 0 <= i < 4
      ensures (d.ephPub + image)[32 + 4 * i..36 + 4 * i] == LE(d.nonce[i], 4)
    {
      NonceAt(d.nonce, i);
    }
  }

  /**
   * RESPONSE: too short, refused; else the stored key is taken, and a session opens under the low
   * half of the random word.
   */
  lemma ResponseOutcome(s: BridgeState, c: Command, cfg: Config)
    requires s.Valid() && c.code == 0x03
    ensures var r := Step(s, c, cfg);
            var m := s.machine;
            var id := c.draws.randomId % 0x1_0000;
            && (|c.payload| < 96 ==> r == StepResult(s, [Answer(0x04, 0x06, [], s.sessionId)]))
            && (|c.payload| >= 96 ==>
                  && r.replies == [Answer(0x04, 0x00, [(id / 256) as byte, (id % 256) as byte], id)]
                  && r.state == BridgeState(m.(bunker := m.bunker.(eph := Zeros(64)),
                                               log := m.log + [Entry(BridgeSessionStart, id)]),
                                            true, id, s.keysUsed + [m.bunker.eph[..32]]))
  {
  }

  // ---------- Signature requests ----------

  /**
   * VERIFY_PQC answers 0x00 exactly to a true verdict in session on a full request with the key
   * ready, 0x01 to a false one, 0x02 without a session and 0x06 otherwise; what it logs as the
   * result is what it answers, and a full request leaves the bunker erased.
   */
  lemma VerifyOutcome(s: BridgeState, c: Command, cfg: Config)
    requires s.Valid() && c.code == 0x10
    ensures var r := Step(s, c, cfg);
            var m := s.machine;
            var full := s.active && |c.payload| >= 2456;
            var checked := full && m.vault.ready;
            && |r.replies| == 1 && r.replies[0].command == 0x11 && r.replies[0].payload == []
            && r.replies[0].sessionId == s.sessionId
            && var result := r.replies[0].result;
               && (result == 0x00 <==> checked && c.draws.requestVerdict)
               && (result == 0x01 <==> checked && !c.draws.requestVerdict)
               && (result == 0x02 <==> !s.active)
               && (result == 0x06 <==> s.active && !checked)
               && r.state == s.(machine := m.(bunker := if full then BunkerState(Zeros(64), false) else m.bunker,
                                              log := r.state.machine.log))
               && (!full ==> r.state.machine.log == m.log)
               && (full ==>
                     r.state.machine.log == m.log + [Entry(BridgePqcVerifyReq, FromLE(c.payload[2452..2456]))]
                                            + if checked then [Entry(BridgePqcVerifyResult, result as nat)] else [])
  {
    hide FromLE;
    assert (0 as byte) as nat == 0 && (1 as byte) as nat == 1;
    if s.active && |c.payload| >= 2456 {
      var asked := s.machine.log + [Entry(BridgePqcVerifyReq, FromLE(c.payload[2452..2456]))];
      assert asked + [] == asked;
    }
  }

  /** Only VERIFY_PQC itself, or an unknown command of that very number, answers with the code of its result. */
  lemma VerifyAnswersOnly(s: BridgeState, c: Command, cfg: Config)
    requires s.Valid()
    ensures forall a :: a in Step(s, c, cfg).replies && a.command == 0x11 && a.result == 0x00 ==>
              c.code == 0x10 && s.active && |c.payload| >= 2456 && s.machine.vault.ready && c.draws.requestVerdict
  {
    hide Execute, WordsImage, StatusImage;
  }

  /** Every good verification in a run is that of a full request, in session, with the key ready and a true verdict. */
  lemma {:induction false} GoodVerdictsOverRun(s: BridgeState, cs: seq<Command>, cfg: Config, a: Answer)
    requires s.Valid() && a in RunCommands(s, cs, cfg).replies && a.command == 0x11 && a.result == 0x00
    ensures exists k :: 0 <= k < |cs| &&
              var t := Before(s, cs, k, cfg);
              && a in Step(t, cs[k], cfg).replies && cs[k].code == 0x10 && t.active && |cs[k].payload| >= 2456
              && t.machine.vault.ready && cs[k].draws.requestVerdict
    decreases |cs|
  {
    hide Step;
    var next := Step(s, cs[0], cfg);
    if a in next.replies {
      VerifyAnswersOnly(s, cs[0], cfg);
      assert Before(s, cs, 0, cfg) == s;
    } else {
      GoodVerdictsOverRun(next.state, cs[1..], cfg, a);
      var k :| 0 <= k < |cs[1..]| &&
        var t := Before(next.state, cs[1..], k, cfg);
        && a in Step(t, cs[1..][k], cfg).replies && cs[1..][k].code == 0x10 && t.active && |cs[1..][k].payload| >= 2456
        && t.machine.vault.ready && cs[1..][k].draws.requestVerdict;
      BeforeShift(s, cs, k + 1, cfg);
      assert cs[1..][k] == cs[k + 1];
    }
  }

  // ---------- Modules and the rest ----------

  /** EXEC_ACODE: refused without a session; else the engine's state, and its result as the low byte of the C code. */
  lemma ExecOutcome(s: BridgeState, c: Command, cfg: Config)
    requires s.Valid() && c.code == 0x20
    ensures var r := Step(s, c, cfg);
            var env := Env(cfg.strict, cfg.clock, c.draws.watch);
            var (m, result) := Execute(true, Some(c.payload), c.draws.locked, c.draws.moduleVerdict, env,
                                       Noted(s.machine, BridgeAcodeExec, |c.payload|));
            && (!s.active ==> r == StepResult(s, [Answer(0x21, 0x02, [], s.sessionId)]))
            && (s.active ==>
                  && r.state == s.(machine := m)
                  && |r.replies| == 1 && r.replies[0].command == 0x21 && r.replies[0].payload == []
                  && r.replies[0].sessionId == s.sessionId
                  && var b := r.replies[0].result;
                     && (result == VmOk <==> b == 0x00) && (result == NullInput <==> b == 0xFF)
                     && (result == TooSmall <==> b == 0xFE) && (result == TooLarge <==> b == 0xFD)
                     && (result == SigInvalid <==> b == 0xFC) && (result == UnknownOpcode <==> b == 0xFB)
                     && (result == StackOverflow <==> b == 0xFA) && (result == PillOff <==> b == 0xF8))
  {
    hide Execute;
  }

  /** PING, GET_STATUS, PILL_OFF, and every command byte that is none of the seven. */
  lemma OtherOutcomes(s: BridgeState, c: Command, cfg: Config)
    requires s.Valid()
    ensures var r := Step(s, c, cfg);
            var m, d := s.machine, c.draws.readings;
            && (c.code == 0x40 ==> r == StepResult(s, [Answer(0x41, 0x00, [], s.sessionId)]))
            && (c.code == 0x42 ==>
                  var flags := [if m.vm.inBunker then 1 else 0, if d.timechainValid then 1 else 0];
                  var report := [1, 3] + flags + LE(d.monotonic, 4) + LE(d.voltage % 0x1_0000, 2)
                                + LE(d.temperature, 2) + Zeros(8);
                  |report| == 20 && r == StepResult(s, [Answer(0x43, 0x00, report, s.sessionId)]))
            && (c.code == 0xFF ==>
                  && r.replies == []
                  && r.state == s.(machine := m.(vault := m.vault.(mpk := Zeros(1312), ready := false),
                                                 log := m.log + [Entry(TamperVault, 0xFFFF_FFFF),
                                                                 Entry(PillOffTriggered, 0xEE)])))
            && (c.code !in {0x01, 0x03, 0x10, 0x20, 0x40, 0x42, 0xFF} ==>
                  && r.replies == [Answer(c.code, 0x06, [], s.sessionId)]
                  && r.state == s.(machine := Noted(m, BridgeUnknownCmd, c.code as nat)))
  {
    hide LE, Execute, Hello, Respond, VerifyPqc, ExecAcode;
    var m, d := s.machine, c.draws.readings;
    StatusBytes(d, m.vm.inBunker);
    assert m.log + [Entry(TamperVault, 0xFFFF_FFFF)] + [Entry(PillOffTriggered, 0xEE)]
        == m.log + [Entry(TamperVault, 0xFFFF_FFFF), Entry(PillOffTriggered, 0xEE)];
  }

  lemma StatusBytes(d: Readings, inBunker: bool)
    ensures StatusImage(d, inBunker) ==
              [1, 3] + [if inBunker then 1 else 0, if d.timechainValid then 1 else 0] + LE(d.monotonic, 4)
                + LE(d.voltage % 0x1_0000, 2) + LE(d.temperature, 2) + Zeros(8)
  {
    hide LE;
  }

  // ---------- On the wire ----------

  /** The CRC field as the receiving side computes it: the two CRCs of RFC 1952, combined. */
  function WireCrc(checked: seq<byte>, payload: seq<byte>): bv32 {
    if |payload| > 0 then RfcCrc(checked) ^ RfcCrc(payload) else RfcCrc(checked)
  }

  /** Its four bytes, lowest first. */
  function WireCrcBytes(crc: bv32): seq<byte> {
    [(crc & 0xFF) as byte, ((crc >> 8) & 0xFF) as byte, ((crc >> 16) & 0xFF) as byte, ((crc >> 24) & 0xFF) as byte]
  }

  lemma ChecksumOnWire(checked: seq<byte>, payload: seq<byte>)
    ensures Checksum(checked, payload) == Word(WireCrc(checked, payload))
  {
    hide Add, Crc, RfcCrc;
    CrcIsRfc1952(checked);
    CrcIsRfc1952(payload);
    XorIsAdd(RfcCrc(checked), RfcCrc(payload));
  }

  lemma RawShifts(x: bv32)
    ensures (x >> 8) >> 8 == x >> 16 && (x >> 16) >> 8 == x >> 24
  {
  }

  lemma WordOnWire(crc: bv32)
    ensures WordBytes(Word(crc)) == WireCrcBytes(crc)
  {
    RawShifts(crc);
  }

  function LowHalf(x: uint16): byte {
    (x % 256) as byte
  }

  function HighHalf(x: uint16): byte {
    (x / 256) as byte
  }

  lemma TwoByteField(x: uint16)
    ensures LE(x, 2) == [LowHalf(x), HighHalf(x)]
  {
    LittleEndian(x);
  }

  lemma FromTwo(lo: byte, hi: byte)
    ensures FromLE([lo, hi]) == lo as nat + 256 * (hi as nat)
  {
    LengthOf([lo, hi]);
  }

  lemma FromFour(a: byte, b: byte, c: byte, d: byte)
    ensures FromLE([a, b, c, d]) == a as nat + 256 * (b as nat + 256 * (c as nat + 256 * (d as nat)))
  {
    FromTwo(c, d);
    assert [a, b, c, d][1..] == [b, c, d] && [b, c, d][1..] == [c, d];
  }

  lemma MagicOnWire()
    ensures LE(MAGIC, 4) + LE(VERSION, 2) == [0x42, 0x46, 0x43, 0x52, 0x03, 0x01]
  {
    hide LE, FromLE;
    FromFour(0x42, 0x46, 0x43, 0x52);
    StoreLoad([0x42, 0x46, 0x43, 0x52]);
    FromTwo(0x03, 0x01);
    StoreLoad([0x03, 0x01]);
  }

  lemma CheckedOnWire(h: Header)
    requires h.magic == MAGIC && h.version == VERSION
    ensures CheckedBytes(h) == [0x42, 0x46, 0x43, 0x52, 0x03, 0x01, h.command, h.result, LowHalf(h.payloadLen),
                                HighHalf(h.payloadLen), LowHalf(h.sessionId), HighHalf(h.sessionId)]
  {
    hide LE, LowHalf, HighHalf;
    MagicOnWire();
    TwoByteField(h.payloadLen);
    TwoByteField(h.sessionId);
  }

  /** The sixteen bytes in front of every answer, and the answer itself. */
  lemma AnswerOnWire(a: Answer)
    ensures var w := EncodeFrame(AnswerFrame(a));
            var n := |a.payload|;
            && |w| == 16 + n && w[16..] == a.payload
            && w[..12] == [0x42, 0x46, 0x43, 0x52, 0x03, 0x01, a.command, a.result, LowHalf(n), HighHalf(n),
                           LowHalf(a.sessionId), HighHalf(a.sessionId)]
            && w[12..16] == WireCrcBytes(WireCrc(w[..12], a.payload))
  {
    hide CheckedBytes, WordBytes, Checksum, WireCrc, WireCrcBytes, LowHalf, HighHalf;
    var f := AnswerFrame(a);
    var w := EncodeFrame(f);
    CheckedOnWire(f.header);
    CheckedIgnoresCrc(Header(MAGIC, VERSION, a.command, a.result, |a.payload|, a.sessionId, ZERO), f.header.crc32);
    assert w[..12] == CheckedBytes(f.header);
    assert w[12..16] == WordBytes(f.header.crc32);
    ChecksumOnWire(w[..12], a.payload);
    WordOnWire(WireCrc(w[..12], a.payload));
  }

  lemma CheckedIgnoresCrc(h: Header, crc: Word)
    ensures CheckedBytes(h.(crc32 := crc)) == CheckedBytes(h)
  {
  }

  lemma LoadedWord(s: seq<byte>, crc: bv32)
    requires |s| == 4
    ensures LoadWord(s) == Word(crc) <==> s == WireCrcBytes(crc)
  {
    hide LoadWord, WordBytes, WireCrcBytes;
    WordBytesRoundTrip(s);
    WordRoundTrip(Word(crc));
    WordOnWire(crc);
  }

  lemma HeadOnWire(head: seq<byte>)
    requires |head| == 16
    ensures var h := DecodeHeader(head);
            && (h.magic == MAGIC && h.version == VERSION <==> head[..6] == [0x42, 0x46, 0x43, 0x52, 0x03, 0x01])
            && h.command == head[6] && h.payloadLen == head[8] as nat + 256 * (head[9] as nat)
            && h.crc32 == LoadWord(head[12..16])
  {
    hide LE, FromLE, LoadWord, Load32;
    PreambleDecoded(head);
    MagicOnWire();
    LengthOf(head[8..10]);
  }

  lemma ReceiveByHeader(head: seq<byte>, body: seq<byte>)
    requires |head| == 16
    ensures var r, h := Receive(head + body, 4096), DecodeHeader(head);
            var n := h.payloadLen;
            var taken := h.magic == MAGIC && h.version == VERSION && n <= 4096 && n <= |body|
                         && Checksum(head[..12], body[..n]) == h.crc32;
            && (r.frame.Some? <==> taken)
            && (taken ==> r == Received(Some(Frame(h, body[..n])), body[n..]))
  {
    hide DecodeHeader, Checksum;
    assert (head + body)[..16] == head && (head + body)[16..] == body && (head + body)[..12] == head[..12];
  }

  /** Which bytes are taken for a frame, what is read from them, and what is left. */
  lemma ReceiveOnWire(head: seq<byte>, body: seq<byte>)
    requires |head| == 16
    ensures var r := Receive(head + body, 4096);
            var n := head[8] as nat + 256 * (head[9] as nat);
            var taken := head[..6] == [0x42, 0x46, 0x43, 0x52, 0x03, 0x01] && n <= 4096 && n <= |body|
                         && head[12..16] == WireCrcBytes(WireCrc(head[..12], body[..n]));
            && (r.frame.Some? <==> taken)
            && (taken ==>
                  && r.frame.value.header.command == head[6]
                  && r.frame.value.payload == body[..n] && r.rest == body[n..])
  {
    hide Receive, DecodeHeader, LoadWord, Checksum, WireCrc, WireCrcBytes;
    var n := DecodeHeader(head).payloadLen;
    HeadOnWire(head);
    ReceiveByHeader(head, body);
    if n <= |body| {
      ChecksumOnWire(head[..12], body[..n]);
      LoadedWord(head[12..16], WireCrc(head[..12], body[..n]));
    }
  }

  lemma LengthOf(s: seq<byte>)
    requires |s| == 2
    ensures Load16(s) == s[0] as nat + 256 * (s[1] as nat)
  {
    assert s[1..][1..] == [];
    assert FromLE(s[1..]) == s[1] as nat;
  }

  // ---------- Private keys stay inside ----------

  /** The same but for the key in the bunker's buffer. */
  ghost predicate SameButKey(m: Machine, n: Machine) {
    n == m.(bunker := n.bunker) && n.bunker.active == m.bunker.active
  }

  lemma PerformIgnoresKey(i: Instr, m: Machine, n: Machine, ip: nat, env: Env)
    requires m.Valid() && n.Valid() && SameButKey(m, n)
    ensures var (a, b) := (Perform(i, m, ip, env), Perform(i, n, ip, env));
            SameButKey(a.machine, b.machine) && (a.Stopped? <==> b.Stopped?) && (a.Stopped? ==> a.result == b.result)
  {
    hide Store;
  }

  lemma {:induction false} RunIgnoresKey(p: Program, ip: nat, count: nat, m: Machine, n: Machine, env: Env)
    requires m.Valid() && n.Valid() && SameButKey(m, n)
    ensures var (a, b) := (Run(p, ip, count, m, env), Run(p, ip, count, n, env));
            SameButKey(a.0, b.0) && a.1 == b.1
    decreases |p.instrs|
  {
    hide Perform;
    if |p.instrs| > 0 && Alarm(count, env.watch(count)).None? {
      var after := ip + Size(p.instrs[0]);
      var o, q := Perform(p.instrs[0], m, after, env), Perform(p.instrs[0], n, after, env);
      PerformIgnoresKey(p.instrs[0], m, n, after, env);
      if o.Running? {
        RunIgnoresKey(Rest(p), after, count + 1, o.machine, q.machine, env);
      }
    }
  }

  lemma ExecuteIgnoresKey(envelope: seq<byte>, locked: bool, verdict: bool, env: Env, m: Machine, n: Machine)
    requires m.Valid() && n.Valid() && SameButKey(m, n)
    ensures var (a, b) := (Execute(true, Some(envelope), locked, verdict, env, m),
                           Execute(true, Some(envelope), locked, verdict, env, n));
            SameButKey(a.0, b.0) && a.1 == b.1
  {
    hide Run, Decode;
    if |envelope| > SIG_SIZE {
      var code := envelope[SIG_SIZE..];
      RunIgnoresKey(Decode(code), 0, 0, Enter(m, |code|).Logged(VmVerifyOk, |code|),
                    Enter(n, |code|).Logged(VmVerifyOk, |code|), env);
    }
  }

  /** The same device but for the keys it holds or has used up. */
  ghost predicate SameButKeys(s: BridgeState, t: BridgeState) {
    SameButKey(s.machine, t.machine) && t == s.(machine := t.machine, keysUsed := t.keysUsed)
  }

  /** The same command but for the private key drawn while it is handled. */
  ghost predicate SameButDraw(c: Command, d: Command) {
    d == c.(draws := c.draws.(ephPriv := d.draws.ephPriv))
  }

  ghost predicate SameAnswer(a: StepResult, b: StepResult) {
    SameButKeys(a.state, b.state) && a.replies == b.replies
  }

  lemma HandshakeIgnoresKeys(s: BridgeState, t: BridgeState, payload: seq<byte>, d: Draws, e: Draws)
    requires s.Valid() && t.Valid() && SameButKeys(s, t) && e == d.(ephPriv := e.ephPriv)
    ensures SameAnswer(Hello(s, d), Hello(t, e))
    ensures SameAnswer(Respond(s, payload, d), Respond(t, payload, e))
  {
    hide WordsImage;
  }

  lemma VerifyIgnoresKeys(s: BridgeState, t: BridgeState, payload: seq<byte>, d: Draws, e: Draws)
    requires s.Valid() && t.Valid() && SameButKeys(s, t) && e == d.(ephPriv := e.ephPriv)
    ensures SameAnswer(VerifyPqc(s, payload, d), VerifyPqc(t, payload, e))
  {
    hide Load32;
  }

  lemma ExecIgnoresKeys(s: BridgeState, t: BridgeState, payload: seq<byte>, d: Draws, e: Draws, cfg: Config)
    requires s.Valid() && t.Valid() && SameButKeys(s, t) && e == d.(ephPriv := e.ephPriv)
    ensures SameAnswer(ExecAcode(s, payload, d, cfg), ExecAcode(t, payload, e, cfg))
  {
    hide Execute;
    ExecuteIgnoresKey(payload, d.locked, d.moduleVerdict, Env(cfg.strict, cfg.clock, d.watch),
                      s.machine.Logged(BridgeAcodeExec, |payload|), t.machine.Logged(BridgeAcodeExec, |payload|));
  }

  lemma StepIgnoresKeys(s: BridgeState, t: BridgeState, c: Command, d: Command, cfg: Config)
    requires s.Valid() && t.Valid() && SameButKeys(s, t) && SameButDraw(c, d)
    ensures SameAnswer(Step(s, c, cfg), Step(t, d, cfg))
  {
    hide Hello, Respond, VerifyPqc, ExecAcode, StatusImage;
    HandshakeIgnoresKeys(s, t, c.payload, c.draws, d.draws);
    VerifyIgnoresKeys(s, t, c.payload, c.draws, d.draws);
    ExecIgnoresKeys(s, t, c.payload, c.draws, d.draws, cfg);
  }

  /**
   * Two runs of the same commands that differ only in the private keys drawn on the way give the
   * same answers, the same log and the same vault: nothing a host can see depends on a private key.
   */
  lemma {:induction false} KeysStayInside(s: BridgeState, t: BridgeState, cs: seq<Command>, ds: seq<Command>,
                                          cfg: Config)
    requires s.Valid() && t.Valid() && SameButKeys(s, t)
    requires |cs| == |ds| && forall k :: 0 <= k < |cs| ==> SameButDraw(cs[k], ds[k])
    ensures RunCommands(s, cs, cfg).replies == RunCommands(t, ds, cfg).replies
    ensures RunCommands(s, cs, cfg).state.machine.log == RunCommands(t, ds, cfg).state.machine.log
    ensures RunCommands(s, cs, cfg).state.machine.vault == RunCommands(t, ds, cfg).state.machine.vault
    decreases |cs|
  {
    hide Step, SameButDraw;
    if |cs| > 0 {
      StepIgnoresKeys(s, t, cs[0], ds[0], cfg);
      assert forall k :: 0 <= k < |cs[1..]| ==> cs[1..][k] == cs[k + 1] && ds[1..][k] == ds[k + 1];
      KeysStayInside(Step(s, cs[0], cfg).state, Step(t, ds[0], cfg).state, cs[1..], ds[1..], cfg);
    }
  }
}
