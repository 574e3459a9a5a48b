/**
 * The store's counters and the voice rate limit where the engine is driven from: over whole command
 * runs of the bridge.
 */
module BridgeRuns {
  import opened Bytes
  import opened Audit
  import opened ACode
  import opened WearLevelling
  import opened VmSemantics
  import opened VmProperties
  import opened VmSessions
  import opened BridgeSemantics
  import opened BridgeProperties

  /** The engine and its call depth are only ever touched by an EXEC_ACODE in session. */
  lemma OnlyExecRuns(s: BridgeState, c: Command, cfg: Config)
    requires s.Valid()
    ensures c.code == EXEC_ACODE && s.active ==>
              Step(s, c, cfg).state.machine ==
                Execute(true, Some(c.payload), c.draws.locked, c.draws.moduleVerdict,
                        Env(cfg.strict, cfg.clock, c.draws.watch), s.machine.Logged(BridgeAcodeExec, |c.payload|)).0
    ensures !(c.code == EXEC_ACODE && s.active) ==> Step(s, c, cfg).state.machine.vm == s.machine.vm
  {
    hide Execute, WordsImage, StatusImage;
  }

  // ---------- Stores ----------

  /** All instructions a run of commands performs. */
  function RunInstrs(s: BridgeState, cs: seq<Command>, cfg: Config): seq<Instr>
    requires s.Valid()
    decreases |cs|
  {
    if |cs| == 0 then []
    else CommandInstrs(s, cs[0], cfg) + RunInstrs(Step(s, cs[0], cfg).state, cs[1..], cfg)
  }

  lemma StepStores(s: BridgeState, c: Command, cfg: Config)
    requires s.Valid()
    ensures Step(s, c, cfg).state.machine.vault.wear ==
              Stores(s.machine.vault.wear, CountStores(CommandInstrs(s, c, cfg)))
    ensures Step(s, c, cfg).state.machine.vm.callDepth == s.machine.vm.callDepth
  {
    hide Step, Execute, ExecutedInstrs, Stores, CountStores;
    NoStores(s.machine.vault.wear);
    StepVault(s, c, cfg);
    OnlyExecRuns(s, c, cfg);
    ExecuteEffect(true, Some(c.payload), c.draws.locked, c.draws.moduleVerdict,
                  Env(cfg.strict, cfg.clock, c.draws.watch), s.machine.Logged(BridgeAcodeExec, |c.payload|));
  }

  /** Over any commands, the store is stepped exactly once for each VFS_STORE that the executed modules reached. */
  lemma {:induction false} RunStores(s: BridgeState, cs: seq<Command>, cfg: Config)
    requires s.Valid()
    ensures var n := CountStores(RunInstrs(s, cs, cfg));
            var m := RunCommands(s, cs, cfg).state.machine;
            && m.vault.wear == Stores(s.machine.vault.wear, n)
            && m.vault.wear.generation == (s.machine.vault.wear.generation + n) % WRAP
            && m.vm.callDepth == s.machine.vm.callDepth
    decreases |cs|
  {
    hide Step, CommandInstrs, Stores, CountStores;
    GenerationAfter(s.machine.vault.wear, CountStores(RunInstrs(s, cs, cfg)));
    if |cs| == 0 {
      NoStores(s.machine.vault.wear);
    } else {
      var here := CommandInstrs(s, cs[0], cfg);
      var next := Step(s, cs[0], cfg).state;
      var later := RunInstrs(next, cs[1..], cfg);
      StepStores(s, cs[0], cfg);
      RunStores(next, cs[1..], cfg);
      CountStoresConcat(here, later);
      StoresCompose(s.machine.vault.wear, CountStores(here), CountStores(later));
    }
  }

  // ---------- Voices ----------

  lemma StepPaced(s: BridgeState, c: Command, cfg: Config)
    requires s.Valid() && Monotone(cfg.clock) && VoiceInv(s.machine.vm, cfg.clock)
    ensures VoiceInv(Step(s, c, cfg).state.machine.vm, cfg.clock)
  {
    hide Step, Execute, VoiceInv, Monotone;
    OnlyExecRuns(s, c, cfg);
    ExecutePaced(true, Some(c.payload), c.draws.locked, c.draws.moduleVerdict,
                 Env(cfg.strict, cfg.clock, c.draws.watch), s.machine.Logged(BridgeAcodeExec, |c.payload|));
  }

  lemma {:induction false} CommandsPaced(s: BridgeState, cs: seq<Command>, cfg: Config)
    requires s.Valid() && Monotone(cfg.clock) && VoiceInv(s.machine.vm, cfg.clock)
    ensures VoiceInv(RunCommands(s, cs, cfg).state.machine.vm, cfg.clock)
    decreases |cs|
  {
    hide Step, VoiceInv, Monotone;
    if |cs| > 0 {
      StepPaced(s, cs[0], cfg);
      CommandsPaced(Step(s, cs[0], cfg).state, cs[1..], cfg);
    }
  }

  /**
   * From power-on, whatever frames arrive: a span of `t` ticks that avoids tick zero holds at most
   * t / 10000 + 1 voices.
   */
  lemma CommandVoiceRate(s: BridgeState, cs: seq<Command>, cfg: Config, start: nat, t: nat, i: nat, j: nat)
    requires s.Valid() && Monotone(cfg.clock) && s.machine.vm == POWER_ON
    requires forall x :: start <= x <= start + t ==> x % WRAP != 0
    requires i <= j < |RunCommands(s, cs, cfg).state.machine.vm.voices|
    requires start <= RunCommands(s, cs, cfg).state.machine.vm.voices[i]
    requires RunCommands(s, cs, cfg).state.machine.vm.voices[j] <= start + t
    ensures j - i + 1 <= t / VOICE_GAP + 1
  {
    hide RunCommands, Monotone;
    CommandsPaced(s, cs, cfg);
    SpanHolds(RunCommands(s, cs, cfg).state.machine.vm.voices, start, t, i, j);
  }

  lemma ExecLogsVoices(s: BridgeState, c: Command, cfg: Config)
    requires s.Valid() && c.code == EXEC_ACODE && s.active
    ensures VoicesLogged(s.machine, Step(s, c, cfg).state.machine)
  {
    hide Step, Execute, CountVoices;
    OnlyExecRuns(s, c, cfg);
    LoggedVoices(s.machine, BridgeAcodeExec, |c.payload|);
    ExecuteLogsVoices(true, Some(c.payload), c.draws.locked, c.draws.moduleVerdict,
                      Env(cfg.strict, cfg.clock, c.draws.watch), s.machine.Logged(BridgeAcodeExec, |c.payload|));
  }

  /** One more entry that is not a voice, the voices themselves untouched. */
  lemma OtherEntry(m: Machine, m': Machine, e: Entry)
    requires m'.vm == m.vm && m'.log == m.log + [e] && e.event != VmLumeVoice
    ensures VoicesLogged(m, m')
  {
    hide CountVoices;
    CountAppend(m.log, e);
  }

  lemma VoicesLoggedTwice(m: Machine, m': Machine, m'': Machine)
    requires VoicesLogged(m, m') && VoicesLogged(m', m'')
    ensures VoicesLogged(m, m'')
  {
  }

  lemma VerifyLogsNoVoice(s: BridgeState, payload: seq<byte>, d: Draws)
    requires s.Valid() && s.active && |payload| >= VERIFY_REQUEST_SIZE
    ensures VoicesLogged(s.machine, VerifyPqc(s, payload, d).state.machine)
  {
    hide CountVoices, Load32;
    var length := Load32(payload[MSG_LEN_OFFSET..VERIFY_REQUEST_SIZE]);
    var asked := s.Logged(BridgePqcVerifyReq, length);
    OtherEntry(s.machine, asked.machine, Entry(BridgePqcVerifyReq, length));
    var done := VerifyInBunker(asked, d).state.machine;
    if s.machine.vault.ready {
      OtherEntry(asked.machine, done, Entry(BridgePqcVerifyResult, if d.requestVerdict then 0 else 1));
    }
    VoicesLoggedTwice(s.machine, asked.machine, done);
  }

  lemma HaltLogsNoVoice(s: BridgeState)
    requires s.Valid()
    ensures VoicesLogged(s.machine, PillOffCommand(s).state.machine)
  {
    hide CountVoices;
    var wiped := s.machine.(vault := s.machine.vault.Wiped());
    var first := wiped.Logged(TamperVault, 0xFFFF_FFFF);
    OtherEntry(s.machine, first, Entry(TamperVault, 0xFFFF_FFFF));
    OtherEntry(first, first.Logged(PillOffTriggered, EXTERNAL), Entry(PillOffTriggered, EXTERNAL));
  }

  lemma StepLogsVoices(s: BridgeState, c: Command, cfg: Config)
    requires s.Valid()
    ensures VoicesLogged(s.machine, Step(s, c, cfg).state.machine)
  {
    hide CountVoices, Execute, StatusImage, WordsImage, SessionImage, Load32;
    if c.code == EXEC_ACODE && s.active {
      ExecLogsVoices(s, c, cfg);
    } else if c.code == VERIFY_PQC && s.active && |c.payload| >= VERIFY_REQUEST_SIZE {
      VerifyLogsNoVoice(s, c.payload, c.draws);
    } else if c.code == PILL_OFF {
      HaltLogsNoVoice(s);
    } else if Opens(c) {
      OtherEntry(s.machine, Step(s, c, cfg).state.machine, Entry(BridgeSessionStart, c.draws.randomId % 0x1_0000));
    } else if Step(s, c, cfg).state.machine.log != s.machine.log {
      OtherEntry(s.machine, Step(s, c, cfg).state.machine, Entry(BridgeUnknownCmd, c.code as nat));
    }
  }

  /** Over any commands, the voices that the rate limit counts are exactly the voice events in the audit log. */
  lemma {:induction false} CommandsLogVoices(s: BridgeState, cs: seq<Command>, cfg: Config)
    requires s.Valid()
    ensures VoicesLogged(s.machine, RunCommands(s, cs, cfg).state.machine)
    decreases |cs|
  {
    hide Step, CountVoices;
    if |cs| > 0 {
      StepLogsVoices(s, cs[0], cfg);
      CommandsLogVoices(Step(s, cs[0], cfg).state, cs[1..], cfg);
    }
  }
}
