/** Theorems over whole command runs of the bridge. */
module BridgeProperties {
  import opened Bytes
  import opened Audit
  import opened ACode
  import opened WearLevelling
  import opened VaultStore
  import opened BunkerStore
  import opened VmSemantics
  import opened VmProperties
  import opened Framing
  import opened BridgeSemantics
  import opened CrcBurst

  /** A response long enough to be accepted: the only way to open a session. */
  predicate Opens(c: Command) {
    c.code == RESPONSE && |c.payload| >= RESPONSE_SIZE
  }

  /** The instructions that an EXEC_ACODE command performs in `s`. */
  function CommandInstrs(s: BridgeState, c: Command, cfg: Config): seq<Instr>
    requires s.Valid()
  {
    if c.code == EXEC_ACODE && s.active then
      ExecutedInstrs(true, Some(c.payload), c.draws.locked, c.draws.moduleVerdict,
                     Env(cfg.strict, cfg.clock, c.draws.watch), s.machine.Logged(BridgeAcodeExec, |c.payload|))
    else []
  }

  /** The state before command `k` of a run. */
  function Before(s: BridgeState, cs: seq<Command>, k: nat, cfg: Config): (t: BridgeState)
    requires s.Valid() && k <= |cs|
    ensures t.Valid()
    decreases k
  {
    if k == 0 then s else Step(Before(s, cs, k - 1, cfg), cs[k - 1], cfg).state
  }

  lemma {:induction false} BeforeShift(s: BridgeState, cs: seq<Command>, k: nat, cfg: Config)
    requires s.Valid() && 1 <= k <= |cs|
    ensures Before(s, cs, k, cfg) == Before(Step(s, cs[0], cfg).state, cs[1..], k - 1, cfg)
    decreases k
  {
    hide Step;
    if k > 1 {
      BeforeShift(s, cs, k - 1, cfg);
      assert cs[1..][k - 2] == cs[k - 1];
    } else {
      assert Before(s, cs, 0, cfg) == s;
    }
  }

  /** A run ends in the state before its end. */
  lemma {:induction false} RunEndsBefore(s: BridgeState, cs: seq<Command>, cfg: Config)
    requires s.Valid()
    ensures RunCommands(s, cs, cfg).state == Before(s, cs, |cs|, cfg)
    decreases |cs|
  {
    hide Step;
    if |cs| > 0 {
      RunEndsBefore(Step(s, cs[0], cfg).state, cs[1..], cfg);
      BeforeShift(s, cs, |cs|, cfg);
    }
  }

  /** The state that the device boots into meets every starting condition used below. */
  lemma BootState()
    ensures AtRest(Booted()) && Booted().machine.bunker.Slot() == NO_KEY
    ensures !Booted().active && Booted().sessionId == 0
  {
    assert Zeros(EPH_SIZE)[..KEY_LEN] == NO_KEY;
  }

  // ---------- Replies and sessions ----------

  /** Every command is answered by exactly one reply, except the emergency halt; the device never loses a session. */
  lemma OneReply(s: BridgeState, c: Command, cfg: Config)
    requires s.Valid()
    ensures var r := Step(s, c, cfg);
            && |r.replies| == (if c.code == PILL_OFF then 0 else 1)
            && (forall a :: a in r.replies ==> a.sessionId == r.state.sessionId)
            && (r.state.active <==> s.active || Opens(c))
            && (!Opens(c) ==> r.state.sessionId == s.sessionId)
  {
    hide Execute, WordsImage, StatusImage;
  }

  /** A run is in session at its end exactly when it was at its start or some response was accepted. */
  lemma {:induction false} SessionOpensOnlyByResponse(s: BridgeState, cs: seq<Command>, cfg: Config)
    requires s.Valid()
    ensures RunCommands(s, cs, cfg).state.active <==> s.active || exists c :: c in cs && Opens(c)
    decreases |cs|
  {
    hide Step;
    if |cs| > 0 {
      var next := Step(s, cs[0], cfg).state;
      OneReply(s, cs[0], cfg);
      SessionOpensOnlyByResponse(next, cs[1..], cfg);
      assert cs == [cs[0]] + cs[1..];
    }
  }

  /** Audit events that a device without a session may log. */
  predicate Idle(e: Event) {
    e == BridgeUnknownCmd || e == TamperVault || e == PillOffTriggered
  }

  /** Nothing but the vault's key, the ephemeral slot and idle events differs between the two states. */
  ghost predicate OnlyIdled(s: BridgeState, t: BridgeState) {
    && t.machine.vm == s.machine.vm
    && t.machine.vault.wear == s.machine.vault.wear
    && !t.active && t.sessionId == s.sessionId && t.keysUsed == s.keysUsed
    && s.machine.log <= t.machine.log
    && forall i :: |s.machine.log| <= i < |t.machine.log| ==> Idle(t.machine.log[i].event)
  }

  lemma RefusedStep(s: BridgeState, c: Command, cfg: Config)
    requires s.Valid() && !s.active
    ensures c.code == VERIFY_PQC ==>
              Step(s, c, cfg) == StepResult(s, [Answer(VERIFY_RESULT, ERR_NO_SESSION, [], s.sessionId)])
    ensures c.code == EXEC_ACODE ==>
              Step(s, c, cfg) == StepResult(s, [Answer(EXEC_RESULT, ERR_NO_SESSION, [], s.sessionId)])
  {
    hide Execute, Hello, Respond, GetStatus, PillOffCommand;
  }

  lemma IdleHello(s: BridgeState, d: Draws)
    requires s.Valid() && !s.active
    ensures OnlyIdled(s, Hello(s, d).state)
  {
    hide WordsImage;
  }

  lemma IdleHalt(s: BridgeState)
    requires s.Valid() && !s.active
    ensures OnlyIdled(s, PillOffCommand(s).state)
  {
  }

  lemma IdleReply(s: BridgeState, command: byte, result: byte, payload: seq<byte>)
    requires s.Valid() && !s.active && |payload| <= MAX_PAYLOAD
    ensures OnlyIdled(s, Reply(s, command, result, payload).state)
    ensures forall data :: OnlyIdled(s, Reply(s.Logged(BridgeUnknownCmd, data), command, result, payload).state)
  {
  }

  lemma IdleStep(s: BridgeState, c: Command, cfg: Config)
    requires s.Valid() && !s.active && !Opens(c)
    ensures OnlyIdled(s, Step(s, c, cfg).state)
  {
    hide StatusImage, Hello, PillOffCommand, VerifyPqc, ExecAcode, OnlyIdled, Reply;
    if c.code == HELLO {
      IdleHello(s, c.draws);
    } else if c.code == PILL_OFF {
      IdleHalt(s);
    } else if c.code == RESPONSE {
      IdleReply(s, SESSION_OK, ERR_BAD_CMD, []);
    } else if c.code == VERIFY_PQC || c.code == EXEC_ACODE {
      RefusedStep(s, c, cfg);
      IdleReply(s, VERIFY_RESULT, ERR_NO_SESSION, []);
      ReplyKeepsState(s, VERIFY_RESULT, ERR_NO_SESSION, []);
    } else if c.code == GET_STATUS {
      IdleReply(s, STATUS_REPORT, OK, StatusImage(c.draws.readings, s.machine.vm.inBunker));
    } else if c.code == PING {
      IdleReply(s, PONG, OK, []);
    } else {
      IdleReply(s, c.code, ERR_BAD_CMD, []);
    }
  }

  lemma ReplyKeepsState(s: BridgeState, command: byte, result: byte, payload: seq<byte>)
    requires |payload| <= MAX_PAYLOAD
    ensures Reply(s, command, result, payload).state == s
  {
  }

  lemma OnlyIdledComposes(s: BridgeState, t: BridgeState, u: BridgeState)
    requires OnlyIdled(s, t) && OnlyIdled(t, u)
    ensures OnlyIdled(s, u)
  {
    hide Idle;
  }

  /**
   * Until a response of at least 96 bytes has been accepted, no module runs, no signature is
   * checked and nothing is stored: only idle events are logged, and the session id stays 0.
   */
  lemma {:induction false} GatedUntilResponse(s0: BridgeState, cs: seq<Command>, k: nat, cfg: Config)
    requires s0.Valid() && !s0.active
    requires k <= |cs| && forall j :: 0 <= j < k ==> !Opens(cs[j])
    ensures OnlyIdled(s0, Before(s0, cs, k, cfg))
    decreases k
  {
    hide Step, Idle, Opens;
    if k > 0 {
      var last := Before(s0, cs, k - 1, cfg);
      GatedUntilResponse(s0, cs, k - 1, cfg);
      IdleStep(last, cs[k - 1], cfg);
      OnlyIdledComposes(s0, last, Before(s0, cs, k, cfg));
    }
  }

  /**
   * Until then every reply carries the initial session id, and VERIFY_PQC and EXEC_ACODE do nothing
   * but answer NO_SESSION.
   */
  lemma GatedReplies(s0: BridgeState, cs: seq<Command>, k: nat, cfg: Config)
    requires s0.Valid() && !s0.active
    requires k < |cs| && forall j :: 0 <= j <= k ==> !Opens(cs[j])
    ensures var s := Before(s0, cs, k, cfg);
            && (forall a :: a in Step(s, cs[k], cfg).replies ==> a.sessionId == s0.sessionId)
            && (cs[k].code == VERIFY_PQC ==>
                  Step(s, cs[k], cfg) == StepResult(s, [Answer(VERIFY_RESULT, ERR_NO_SESSION, [], s0.sessionId)]))
            && (cs[k].code == EXEC_ACODE ==>
                  Step(s, cs[k], cfg) == StepResult(s, [Answer(EXEC_RESULT, ERR_NO_SESSION, [], s0.sessionId)]))
  {
    hide Step, Idle, Opens, WellFormed, Before;
    GatedUntilResponse(s0, cs, k, cfg);
    RefusedStep(Before(s0, cs, k, cfg), cs[k], cfg);
    OneReply(Before(s0, cs, k, cfg), cs[k], cfg);
  }

  // ---------- The wipe is permanent ----------

  lemma WipedVault(v: VaultState, instrs: seq<Instr>)
    requires v.Valid()
    ensures v.IsWiped() || ReflexAction in instrs ==> VaultAfter(v, instrs).IsWiped()
  {
    hide Stores, CountStores;
  }

  /** What a command does to the vault. */
  lemma StepVault(s: BridgeState, c: Command, cfg: Config)
    requires s.Valid()
    ensures Step(s, c, cfg).state.machine.vault ==
              if c.code == PILL_OFF then s.machine.vault.Wiped()
              else VaultAfter(s.machine.vault, CommandInstrs(s, c, cfg))
  {
    hide Execute, ExecutedInstrs, VaultAfter, BunkerAfter, WordsImage, StatusImage;
    NoEffect(s.machine);
    if c.code == EXEC_ACODE && s.active {
      ExecuteEffect(true, Some(c.payload), c.draws.locked, c.draws.moduleVerdict,
                    Env(cfg.strict, cfg.clock, c.draws.watch), s.machine.Logged(BridgeAcodeExec, |c.payload|));
    }
  }

  lemma WipedStep(s: BridgeState, c: Command, cfg: Config)
    requires s.Valid() && s.machine.vault.IsWiped()
    ensures Step(s, c, cfg).state.machine.vault.IsWiped()
    ensures forall a :: a in Step(s, c, cfg).replies && a.command == VERIFY_RESULT ==> a.result != OK
  {
    hide Execute, ExecutedInstrs, VaultAfter, WordsImage, StatusImage, CommandInstrs;
    StepVault(s, c, cfg);
    WipedVault(s.machine.vault, CommandInstrs(s, c, cfg));
  }

  lemma {:induction false} WipedRun(s: BridgeState, cs: seq<Command>, cfg: Config)
    requires s.Valid() && s.machine.vault.IsWiped()
    ensures RunCommands(s, cs, cfg).state.machine.vault.IsWiped()
    ensures forall a :: a in RunCommands(s, cs, cfg).replies && a.command == VERIFY_RESULT ==> a.result != OK
    decreases |cs|
  {
    hide Step;
    if |cs| > 0 {
      WipedStep(s, cs[0], cfg);
      WipedRun(Step(s, cs[0], cfg).state, cs[1..], cfg);
    }
  }

  /** After an emergency halt, or a module that reaches REFLEX_ACTION, the key is gone and no verification succeeds. */
  lemma WipeIsPermanent(s: BridgeState, c: Command, cs: seq<Command>, cfg: Config)
    requires s.Valid()
    requires c.code == PILL_OFF || ReflexAction in CommandInstrs(s, c, cfg)
    ensures var r := RunCommands(Step(s, c, cfg).state, cs, cfg);
            && r.state.machine.vault.mpk == Zeros(MPK_SIZE) && !r.state.machine.vault.ready
            && forall a :: a in r.replies && a.command == VERIFY_RESULT ==> a.result != OK
  {
    hide Step, CommandInstrs, VaultAfter;
    StepVault(s, c, cfg);
    WipedVault(s.machine.vault, CommandInstrs(s, c, cfg));
    WipedRun(Step(s, c, cfg).state, cs, cfg);
  }

  // ---------- The one-shot ephemeral key ----------

  /** The command takes or erases the stored ephemeral key. */
  ghost predicate Consumes(s: BridgeState, c: Command, cfg: Config)
    requires s.Valid()
  {
    || Opens(c)
    || (c.code == VERIFY_PQC && s.active && |c.payload| >= VERIFY_REQUEST_SIZE)
    || IdentityGen in CommandInstrs(s, c, cfg)
  }

  /** Between commands the bunker is off, and only a key can be in its buffer. */
  ghost predicate AtRest(s: BridgeState) {
    && s.Valid()
    && !s.machine.bunker.active
    && !s.machine.vm.inBunker
  }

  /** The slot, the resting bunker and the keys used after a handler has run. */
  ghost predicate LeavesSlot(s: BridgeState, t: BridgeState, slot: seq<byte>, keysUsed: seq<seq<byte>>)
    requires s.Valid()
  {
    AtRest(t) && t.machine.bunker.Slot() == slot && t.keysUsed == keysUsed
  }

  lemma HelloSlot(s: BridgeState, d: Draws)
    requires AtRest(s)
    ensures LeavesSlot(s, Hello(s, d).state, d.ephPriv, s.keysUsed)
  {
    hide WordsImage;
    assert s.machine.bunker.Stored(d.ephPriv).Slot() == d.ephPriv;
  }

  lemma ZeroSlot()
    ensures Zeros(EPH_SIZE)[..KEY_LEN] == NO_KEY
  {
  }

  lemma RespondSlot(s: BridgeState, payload: seq<byte>, d: Draws)
    requires AtRest(s) && |payload| >= RESPONSE_SIZE
    ensures LeavesSlot(s, Respond(s, payload, d).state, NO_KEY, s.keysUsed + [s.machine.bunker.Slot()])
  {
    ZeroSlot();
  }

  lemma VerifySlot(s: BridgeState, payload: seq<byte>, d: Draws)
    requires AtRest(s) && s.active && |payload| >= VERIFY_REQUEST_SIZE
    ensures LeavesSlot(s, VerifyPqc(s, payload, d).state, NO_KEY, s.keysUsed)
  {
    hide Load32;
    ZeroSlot();
  }

  lemma ExecSlot(s: BridgeState, c: Command, cfg: Config)
    requires AtRest(s) && s.active && c.code == EXEC_ACODE
    ensures var slot := if IdentityGen in CommandInstrs(s, c, cfg) then NO_KEY else s.machine.bunker.Slot();
            LeavesSlot(s, ExecAcode(s, c.payload, c.draws, cfg).state, slot, s.keysUsed)
  {
    hide Execute, ExecutedInstrs, VaultAfter;
    ZeroSlot();
    ExecuteEffect(true, Some(c.payload), c.draws.locked, c.draws.moduleVerdict,
                  Env(cfg.strict, cfg.clock, c.draws.watch), s.machine.Logged(BridgeAcodeExec, |c.payload|));
  }

  lemma ShortRespondSlot(s: BridgeState, payload: seq<byte>, d: Draws)
    requires AtRest(s) && |payload| < RESPONSE_SIZE
    ensures Respond(s, payload, d).state == s
  {
  }

  lemma IdleVerifySlot(s: BridgeState, payload: seq<byte>, d: Draws)
    requires AtRest(s) && (!s.active || |payload| < VERIFY_REQUEST_SIZE)
    ensures VerifyPqc(s, payload, d).state == s
  {
  }

  lemma HaltSlot(s: BridgeState)
    requires AtRest(s)
    ensures LeavesSlot(s, PillOffCommand(s).state, s.machine.bunker.Slot(), s.keysUsed)
  {
  }

  lemma StepSlot(s: BridgeState, c: Command, cfg: Config)
    requires AtRest(s)
    ensures AtRest(Step(s, c, cfg).state)
    ensures Step(s, c, cfg).state.machine.bunker.Slot() ==
              if c.code == HELLO then c.draws.ephPriv
              else if Consumes(s, c, cfg) then NO_KEY
              else s.machine.bunker.Slot()
    ensures Step(s, c, cfg).state.keysUsed == if Opens(c) then s.keysUsed + [s.machine.bunker.Slot()] else s.keysUsed
  {
    hide ExecutedInstrs, StatusImage, Hello, PillOffCommand, Respond, VerifyPqc, ExecAcode;
    if c.code == HELLO {
      HelloSlot(s, c.draws);
    } else if c.code == PILL_OFF {
      HaltSlot(s);
    } else if c.code == RESPONSE {
      if Opens(c) { RespondSlot(s, c.payload, c.draws); } else { ShortRespondSlot(s, c.payload, c.draws); }
    } else if c.code == VERIFY_PQC {
      if s.active && |c.payload| >= VERIFY_REQUEST_SIZE { VerifySlot(s, c.payload, c.draws); }
      else { IdleVerifySlot(s, c.payload, c.draws); }
    } else if c.code == EXEC_ACODE {
      if s.active { ExecSlot(s, c, cfg); } else { RefusedStep(s, c, cfg); }
    }
  }

  /** Without a session, only an accepted response can consume the key. */
  lemma OnlyResponseConsumesBeforeSession(s: BridgeState, c: Command, cfg: Config)
    requires s.Valid() && !s.active
    ensures Consumes(s, c, cfg) <==> Opens(c)
  {
  }

  lemma {:induction false} RestsAlways(s0: BridgeState, cs: seq<Command>, k: nat, cfg: Config)
    requires AtRest(s0)
    requires k <= |cs|
    ensures AtRest(Before(s0, cs, k, cfg))
    decreases k
  {
    hide Step;
    if k > 0 {
      RestsAlways(s0, cs, k - 1, cfg);
      StepSlot(Before(s0, cs, k - 1, cfg), cs[k - 1], cfg);
    }
  }

  /** No HELLO and nothing consuming among the commands from `h` up to `k`. */
  ghost predicate Untouched(s0: BridgeState, cs: seq<Command>, h: nat, k: nat, cfg: Config)
    requires s0.Valid()
    requires h <= k <= |cs|
  {
    forall j :: h <= j < k ==>
      cs[j].code != HELLO && !Consumes(Before(s0, cs, j, cfg), cs[j], cfg)
  }

  lemma {:induction false} SlotKept(s0: BridgeState, cs: seq<Command>, h: nat, k: nat, cfg: Config)
    requires AtRest(s0)
    requires h <= k <= |cs| && Untouched(s0, cs, h, k, cfg)
    ensures Before(s0, cs, k, cfg).machine.bunker.Slot()
         == Before(s0, cs, h, cfg).machine.bunker.Slot()
    decreases k
  {
    hide Step, Consumes;
    if h < k {
      SlotKept(s0, cs, h, k - 1, cfg);
      RestsAlways(s0, cs, k - 1, cfg);
      StepSlot(Before(s0, cs, k - 1, cfg), cs[k - 1], cfg);
    }
  }

  /** The key an accepted response at `k` uses, when the HELLO at `h` is the last thing to have touched the slot. */
  lemma KeyOfLatestHello(s0: BridgeState, cs: seq<Command>, h: nat, k: nat, cfg: Config)
    requires AtRest(s0)
    requires h < k < |cs| && Opens(cs[k])
    requires cs[h].code == HELLO && Untouched(s0, cs, h + 1, k, cfg)
    ensures var s := Before(s0, cs, k, cfg);
            Step(s, cs[k], cfg).state.keysUsed == s.keysUsed + [cs[h].draws.ephPriv]
  {
    hide Step, Consumes;
    RestsAlways(s0, cs, h, cfg);
    StepSlot(Before(s0, cs, h, cfg), cs[h], cfg);
    SlotKept(s0, cs, h + 1, k, cfg);
    RestsAlways(s0, cs, k, cfg);
    StepSlot(Before(s0, cs, k, cfg), cs[k], cfg);
  }

  /** Otherwise - no HELLO yet, or the key already taken or erased - it uses the all-zero key. */
  lemma {:induction false} NoKeyOtherwise(s0: BridgeState, cs: seq<Command>, k: nat, cfg: Config)
    requires AtRest(s0) && s0.machine.bunker.Slot() == NO_KEY
    requires k < |cs| && Opens(cs[k])
    requires forall h :: 0 <= h < k && cs[h].code == HELLO ==> !Untouched(s0, cs, h + 1, k, cfg)
    ensures var s := Before(s0, cs, k, cfg);
            Step(s, cs[k], cfg).state.keysUsed == s.keysUsed + [NO_KEY]
  {
    hide Step, Consumes;
    EmptySlot(s0, cs, k, cfg);
    RestsAlways(s0, cs, k, cfg);
    StepSlot(Before(s0, cs, k, cfg), cs[k], cfg);
  }

  lemma {:induction false} EmptySlot(s0: BridgeState, cs: seq<Command>, k: nat, cfg: Config)
    requires AtRest(s0) && s0.machine.bunker.Slot() == NO_KEY
    requires k <= |cs|
    requires forall h :: 0 <= h < k && cs[h].code == HELLO ==> !Untouched(s0, cs, h + 1, k, cfg)
    ensures Before(s0, cs, k, cfg).machine.bunker.Slot() == NO_KEY
    decreases k
  {
    hide Step, Consumes;
    if k > 0 {
      var last := Before(s0, cs, k - 1, cfg);
      RestsAlways(s0, cs, k - 1, cfg);
      StepSlot(last, cs[k - 1], cfg);
      if cs[k - 1].code == HELLO {
        assert false;
      } else if !Consumes(last, cs[k - 1], cfg) {
        forall h | 0 <= h < k - 1 && cs[h].code == HELLO
          ensures !Untouched(s0, cs, h + 1, k - 1, cfg)
        {
          assert !Untouched(s0, cs, h + 1, k, cfg);
        }
        EmptySlot(s0, cs, k - 1, cfg);
      }
    }
  }

  // ---------- Commands on the wire ----------

  /** `|ds|` turns of the process loop. */
  function Turns(s: BridgeState, stream: seq<byte>, ds: seq<Draws>, cfg: Config): (r: TurnResult)
    requires s.Valid()
    ensures r.state.Valid()
    decreases |ds|
  {
    if |ds| == 0 then TurnResult(s, stream, [])
    else
      var one := Turn(s, stream, ds[0], cfg);
      var rest := Turns(one.state, one.rest, ds[1..], cfg);
      TurnResult(rest.state, rest.rest, one.replies + rest.replies)
  }

  function CommandsOf(fs: seq<Frame>, ds: seq<Draws>): (cs: seq<Command>)
    requires |fs| == |ds|
    ensures |cs| == |fs|
  {
    seq(|fs|, i requires 0 <= i < |fs| => Command(fs[i].header.command, fs[i].payload, ds[i]))
  }

  /** Frames sent back to back are handled one a turn, as the command machine prescribes, to the last byte. */
  lemma {:induction false} TurnsAreCommands(s: BridgeState, fs: seq<Frame>, ds: seq<Draws>, rest: seq<byte>,
                                            cfg: Config)
    requires s.Valid() && |fs| == |ds| && forall f :: f in fs ==> WellFormed(f, MAX_PAYLOAD)
    ensures var r := RunCommands(s, CommandsOf(fs, ds), cfg);
            Turns(s, EncodeFrames(fs) + rest, ds, cfg) == TurnResult(r.state, rest, r.replies)
    decreases |fs|
  {
    hide Step, Receive, EncodeFrame, WellFormed;
    if |fs| == 0 {
      assert EncodeFrames(fs) + rest == rest;
    } else {
      var tail := EncodeFrames(fs[1..]) + rest;
      assert EncodeFrames(fs) + rest == EncodeFrame(fs[0]) + tail;
      ReceiveOfEncode(fs[0], MAX_PAYLOAD, tail);
      var cs := CommandsOf(fs, ds);
      assert cs[1..] == CommandsOf(fs[1..], ds[1..]);
      TurnsAreCommands(Step(s, cs[0], cfg).state, fs[1..], ds[1..], rest, cfg);
    }
  }

  lemma AnswersWellFormed(answers: seq<Answer>)
    ensures forall f :: f in AnswerFrames(answers) ==> WellFormed(f, MAX_PAYLOAD)
  {
    hide AnswerFrame;
  }

  /** The whole exchange: what the host sends is what is handled, and what is answered is what the host receives. */
  lemma ExchangeRoundTrip(s: BridgeState, fs: seq<Frame>, ds: seq<Draws>, cfg: Config)
    requires s.Valid() && |fs| == |ds| && forall f :: f in fs ==> WellFormed(f, MAX_PAYLOAD)
    ensures var r := Turns(s, EncodeFrames(fs), ds, cfg);
            var answers := AnswerFrames(RunCommands(s, CommandsOf(fs, ds), cfg).replies);
            && r.rest == []
            && ReceiveMany(EncodeFrames(AnswerFrames(r.replies)), |answers|) == (answers, [])
  {
    hide Step, Receive, EncodeFrame, ReceiveMany, WellFormed, RunCommands, AnswerFrames;
    var answers := AnswerFrames(RunCommands(s, CommandsOf(fs, ds), cfg).replies);
    TurnsAreCommands(s, fs, ds, [], cfg);
    assert EncodeFrames(fs) + [] == EncodeFrames(fs);
    AnswersWellFormed(RunCommands(s, CommandsOf(fs, ds), cfg).replies);
    StreamRoundTrip(answers, []);
    assert EncodeFrames(answers) + [] == EncodeFrames(answers);
  }

  /** A payload hit by a burst never reaches a handler: the turn drops it and the next frame is in step. */
  lemma CorruptCommandDropped(s: BridgeState, f: Frame, corrupt: seq<byte>, rest: seq<byte>, start: nat,
                              d: Draws, cfg: Config)
    requires s.Valid() && WellFormed(f, MAX_PAYLOAD) && DifferInBurst(f.payload, corrupt, start)
    ensures Turn(s, EncodeHeader(f.header) + corrupt + rest, d, cfg) == TurnResult(s, rest, [])
  {
    hide Receive, DifferInBurst, WellFormed;
    PayloadBurstRejected(f, MAX_PAYLOAD, corrupt, rest, start);
  }

  /**
   * Nor does a header hit by a burst that leaves its length field alone. The payload behind it is
   * dropped with it, unless magic or version was hit: then it is read as the next frames.
   */
  lemma CorruptHeaderDropped(s: BridgeState, f: Frame, corrupt: seq<byte>, rest: seq<byte>, start: nat,
                             d: Draws, cfg: Config)
    requires s.Valid() && WellFormed(f, MAX_PAYLOAD)
    requires DifferInBurst(EncodeHeader(f.header), corrupt, start)
    requires corrupt[8..10] == EncodeHeader(f.header)[8..10]
    ensures var named := corrupt[..6] == EncodeHeader(f.header)[..6];
            Turn(s, corrupt + (f.payload + rest), d, cfg) ==
              TurnResult(s, if named then rest else f.payload + rest, [])
  {
    hide Receive, DifferInBurst, WellFormed, EncodeHeader;
    HeaderBurstRejected(f, MAX_PAYLOAD, corrupt, rest, start);
  }

  /** So a burst in magic or version turns the frames that a payload happens to hold into commands. */
  lemma UnreadPayloadIsHandled(s: BridgeState, f: Frame, inner: seq<Frame>, corrupt: seq<byte>, rest: seq<byte>,
                               start: nat, d: Draws, ds: seq<Draws>, cfg: Config)
    requires s.Valid() && WellFormed(f, MAX_PAYLOAD) && f.payload == EncodeFrames(inner)
    requires |inner| == |ds| && forall g :: g in inner ==> WellFormed(g, MAX_PAYLOAD)
    requires DifferInBurst(EncodeHeader(f.header), corrupt, start)
    requires corrupt[8..10] == EncodeHeader(f.header)[8..10] && corrupt[..6] != EncodeHeader(f.header)[..6]
    ensures var r := RunCommands(s, CommandsOf(inner, ds), cfg);
            Turns(s, corrupt + (f.payload + rest), [d] + ds, cfg) == TurnResult(r.state, rest, r.replies)
  {
    hide Turn, DifferInBurst, WellFormed, EncodeHeader, EncodeFrames, RunCommands;
    CorruptHeaderDropped(s, f, corrupt, rest, start, d, cfg);
    TurnsAreCommands(s, inner, ds, rest, cfg);
    assert ([d] + ds)[1..] == ds;
  }
}
