/**
 * What the engine does with raw bytes: every opcode by its number, every limit as a plain number,
 * every log entry written out. And the voice rule told from the true times of the voices.
 */
module VmOutcomes {
  import opened Bytes
  import opened Audit
  import opened ACode
  import opened WearLevelling
  import opened BunkerStore
  import opened VmSemantics
  import opened VmProperties
  import opened VmSessions

  // ---------- The switch, on raw bytes ----------

  function Noted(m: Machine, event: Event, data: nat): Machine {
    m.(log := m.log + [Entry(event, data)])
  }

  /** An alarm of the watchdogs. */
  function Alarmed(m: Machine, reason: nat): (Machine, VmResult) {
    (m.(log := m.log + [Entry(VmReflex, reason), Entry(PillOffTriggered, 0x12)]), PillOff)
  }

  /** The rest of the module after an instruction of `n` bytes that left the machine as `m`. */
  function Onward(code: seq<byte>, n: nat, ip: nat, count: nat, m: Machine, env: Env): (Machine, VmResult)
    requires m.Valid() && n <= |code|
  {
    Run(Decode(code[n..]), ip + n, count + 1, m, env)
  }

  /** Out of code, or stopped by a watchdog: the guard word, the cap of a million, the probe - in this order. */
  lemma WatchdogsOnBytes(code: seq<byte>, ip: nat, count: nat, m: Machine, env: Env)
    requires m.Valid()
    ensures var r := Run(Decode(code), ip, count, m, env);
            && (|code| == 0 ==> r == (m, VmOk))
            && (|code| > 0 && env.watch(count) == GuardSmashed ==> r == Alarmed(m, 0x04))
            && (|code| > 0 && env.watch(count) != GuardSmashed && count >= 1_000_000 ==> r == Alarmed(m, 0x01))
            && (|code| > 0 && env.watch(count) == Probed && count < 1_000_000 ==> r == Alarmed(m, 0x02))
  {
    hide DecodeInstr, Perform;
    AlarmLogged(m);
    if |code| > 0 {
      SomethingDecoded(code);
    }
  }

  lemma SomethingDecoded(code: seq<byte>)
    requires |code| > 0
    ensures |Decode(code).instrs| > 0 || |Decode(code).tail| > 0
  {
  }

  lemma AlarmLogged(m: Machine)
    ensures forall reason :: Reflex(m, reason) == Alarmed(m, reason).0
  {
    forall reason
      ensures Reflex(m, reason) == Alarmed(m, reason).0
    {
      assert m.log + [Entry(VmReflex, reason)] + [Entry(PillOffTriggered, 0x12)]
          == m.log + [Entry(VmReflex, reason), Entry(PillOffTriggered, 0x12)];
    }
  }

  /** How many operand bytes follow an opcode, by its number. */
  lemma OperandsByNumber(op: byte)
    ensures Operands(op) == if op == 0x10 || op == 0x11 then 2 else if op == 0x30 then 1 else 0
  {
  }

  /** The opcodes by number; every other byte is an instruction of its own. */
  lemma InstrByNumber(code: seq<byte>)
    requires |code| > 0 && |code| >= 1 + Operands(code[0])
    ensures var op, i := code[0], DecodeInstr(code);
            && (op == 0x01 ==> i == InitMod)
            && (op == 0x05 ==> i == IdentityGen)
            && (op == 0x10 ==> i == VfsStore(code[1] as nat + 256 * (code[2] as nat)))
            && (op == 0x11 ==> i == VfsFetch(code[1] as nat + 256 * (code[2] as nat)))
            && (op == 0x20 ==> i == BusPub)
            && (op == 0x30 ==> i == ExtMount(code[1]))
            && (op == 0x65 ==> i == ReflexAction)
            && (op == 0x99 ==> i == Halt)
            && (op == 0xA0 ==> i == LumeVoice)
            && (op !in {0x01, 0x05, 0x10, 0x11, 0x20, 0x30, 0x65, 0x99, 0xA0} ==> i == Unknown(op))
  {
    hide FromLE;
    if Operands(code[0]) == 2 {
      TwoBytes(code[1..3]);
    }
  }

  lemma TwoBytes(s: seq<byte>)
    requires |s| == 2
    ensures Load16(s) == s[0] as nat + 256 * (s[1] as nat)
  {
    assert s[1..][1..] == [];
    assert FromLE(s[1..]) == s[1] as nat;
  }

  /** One undisturbed turn on a decoded program. */
  lemma TurnOfProgram(p: Program, ip: nat, count: nat, m: Machine, env: Env)
    requires m.Valid() && env.watch(count) == Quiet && count < 1_000_000
    ensures |p.instrs| == 0 && |p.tail| > 0 ==> Run(p, ip, count, m, env) == (m, UnknownOpcode)
    ensures |p.instrs| > 0 ==>
              var after := ip + Size(p.instrs[0]);
              var o := Perform(p.instrs[0], m, after, env);
              Run(p, ip, count, m, env) ==
                if o.Running? then Run(Rest(p), after, count + 1, o.machine, env) else (o.machine, o.result)
  {
    hide Perform, Size;
  }

  /** One undisturbed turn of the loop on a first instruction that is there in full. */
  lemma OneTurn(code: seq<byte>, ip: nat, count: nat, m: Machine, env: Env)
    requires m.Valid() && |code| > 0 && env.watch(count) == Quiet && count < 1_000_000
    ensures |code| < 1 + Operands(code[0]) ==> Run(Decode(code), ip, count, m, env) == (m, UnknownOpcode)
    ensures |code| >= 1 + Operands(code[0]) ==>
              var i := DecodeInstr(code);
              var o := Perform(i, m, ip + Size(i), env);
              Run(Decode(code), ip, count, m, env) ==
                if o.Running? then Onward(code, Size(i), ip, count, o.machine, env) else (o.machine, o.result)
  {
    hide Perform, DecodeInstr, Operands, Run, Decode;
    TurnOfProgram(Decode(code), ip, count, m, env);
    if |code| >= 1 + Operands(code[0]) {
      DecodeStep(code);
      var rest := Decode(code[Size(DecodeInstr(code))..]);
      assert Decode(code).instrs[1..] == rest.instrs;
    } else {
      NothingDecoded(code);
    }
  }

  /** The instructions that only leave a note in the log, and the one that does nothing. */
  lemma PlainOpcodes(code: seq<byte>, ip: nat, count: nat, m: Machine, env: Env)
    requires m.Valid() && |code| > 0 && env.watch(count) == Quiet && count < 1_000_000
    ensures var op, r := code[0], Run(Decode(code), ip, count, m, env);
            && (op == 0x01 ==> r == Onward(code, 1, ip, count, Noted(m, VmOpInit, 0), env))
            && (op == 0x20 ==> r == Onward(code, 1, ip, count, Noted(m, VmBusPub, 0), env))
            && (op == 0x30 && |code| < 2 ==> r == (m, UnknownOpcode))
            && (op == 0x30 && |code| >= 2 ==>
                  r == Onward(code, 2, ip, count, Noted(m, VmExtMount, code[1] as nat), env))
            && (op == 0x11 && |code| < 3 ==> r == (m, UnknownOpcode))
            && (op == 0x11 && |code| >= 3 ==> r == Onward(code, 3, ip, count, m, env))
            && (op == 0x99 ==> r == (Noted(m, VmHalt, ip + 1), VmOk))
            && (op !in {0x01, 0x05, 0x10, 0x11, 0x20, 0x30, 0x65, 0x99, 0xA0} ==>
                  var m' := Noted(m, VmUnknownOp, op as nat);
                  r == if env.strict then (m', UnknownOpcode) else Onward(code, 1, ip, count, m', env))
  {
    hide Run, Decode, DecodeInstr, Operands;
    OperandsByNumber(code[0]);
    OneTurn(code, ip, count, m, env);
    if |code| >= 1 + Operands(code[0]) {
      InstrByNumber(code);
    }
  }

  /** The instructions that change the vault or the bunker. */
  lemma KeyedOpcodes(code: seq<byte>, ip: nat, count: nat, m: Machine, env: Env)
    requires m.Valid() && |code| > 0 && env.watch(count) == Quiet && count < 1_000_000
    ensures var op, r := code[0], Run(Decode(code), ip, count, m, env);
            && (op == 0x05 ==>
                  var left := m.(bunker := BunkerState(Zeros(64), false), vm := m.vm.(inBunker := false));
                  r == Onward(code, 1, ip, count, Noted(left, VmIdentityRegen, 0), env))
            && (op == 0x10 && |code| < 3 ==> r == (m, UnknownOpcode))
            && (op == 0x10 && |code| >= 3 ==>
                  var stored := m.(vault := m.vault.(wear := Store(m.vault.wear)));
                  var id := code[1] as nat + 256 * (code[2] as nat);
                  r == Onward(code, 3, ip, count, Noted(stored, VmBusPub, id), env))
            && (op == 0x65 ==>
                  var wiped := m.(vault := m.vault.(mpk := Zeros(1312), ready := false));
                  r == (Noted(wiped, TamperVault, 0xFFFF_FFFF), PillOff))
  {
    hide Run, Decode, DecodeInstr, Operands, Store;
    OperandsByNumber(code[0]);
    OneTurn(code, ip, count, m, env);
    if |code| >= 1 + Operands(code[0]) {
      InstrByNumber(code);
    }
  }

  /** One store: the first sector with the fewest erases gets one more; counters are 32 bits wide and wrap. */
  lemma StoreExactly(w: Wear, t: nat)
    requires w.Valid() && t < 8
    requires forall j :: 0 <= j < 8 ==> w.counts[t] <= w.counts[j] && (j < t ==> w.counts[t] < w.counts[j])
    ensures var next := if w.counts[t] == 0xFFFF_FFFF then 0 else w.counts[t] + 1;
            && Store(w).counts == w.counts[t := next] && Store(w).activeSector == t
            && Store(w).generation == if w.generation == 0xFFFF_FFFF then 0 else w.generation + 1
  {
    hide FirstLeast, IsFirstLeast;
    LeastIs(w.counts, t);
  }

  lemma LeastIs(counts: seq<nat>, t: nat)
    requires |counts| == 8 && t < 8
    requires forall j :: 0 <= j < 8 ==> counts[t] <= counts[j] && (j < t ==> counts[t] < counts[j])
    ensures FirstLeast(counts) == t
  {
    hide FirstLeast;
    FirstLeastUnique(counts, FirstLeast(counts), t);
  }

  // ---------- Voices ----------

  /** The last accepted voice, at a true time that did not read zero, is fewer than 10000 ticks ago as 32 bits count. */
  predicate TooSoon(voices: seq<nat>, now: nat) {
    |voices| > 0 &&
    var last := voices[|voices| - 1];
    last % 0x1_0000_0000 != 0 && (now - last) % 0x1_0000_0000 < 10000
  }

  lemma SameGap(last: nat, now: nat)
    ensures (now % WRAP - last % WRAP) % WRAP == (now - last) % WRAP
  {
    var d := now / WRAP - last / WRAP;
    assert now - last == now % WRAP - last % WRAP + WRAP * d;
    WrapAway(now % WRAP - last % WRAP, d);
  }

  lemma WrapAway(a: int, d: int)
    ensures (a + WRAP * d) % WRAP == a % WRAP
  {
  }

  /** A voice is refused exactly when it comes too soon; otherwise its true time is noted and one voice logged. */
  lemma VoiceOutcome(m: Machine, env: Env)
    requires m.Valid() && VoiceInv(m.vm, env.clock)
    ensures var t := env.clock(m.vm.readings);
            var heard := m.(vm := m.vm.(readings := m.vm.readings + 1));
            Speak(m, env) ==
              if TooSoon(m.vm.voices, t) then Stopped(Alarmed(heard, 0x05).0, PillOff)
              else Running(Noted(heard.(vm := heard.vm.(lastVoice := t % 0x1_0000_0000, voices := m.vm.voices + [t])),
                                 VmLumeVoice, 0))
  {
    hide Paced, Reflex;
    var t := env.clock(m.vm.readings);
    AlarmLogged(m.(vm := m.vm.(readings := m.vm.readings + 1)));
    if |m.vm.voices| > 0 {
      SameGap(m.vm.voices[|m.vm.voices| - 1], t);
    }
  }

  /** The voice opcode on raw bytes. */
  lemma VoiceOpcode(code: seq<byte>, ip: nat, count: nat, m: Machine, env: Env)
    requires m.Valid() && |code| > 0 && env.watch(count) == Quiet && count < 1_000_000
    requires code[0] == 0xA0 && VoiceInv(m.vm, env.clock)
    ensures var t := env.clock(m.vm.readings);
            var heard := m.(vm := m.vm.(readings := m.vm.readings + 1));
            Run(Decode(code), ip, count, m, env) ==
              if TooSoon(m.vm.voices, t) then Alarmed(heard, 0x05)
              else
                var spoken := heard.(vm := heard.vm.(lastVoice := t % 0x1_0000_0000, voices := m.vm.voices + [t]));
                Onward(code, 1, ip, count, Noted(spoken, VmLumeVoice, 0), env)
  {
    hide Run, Decode, DecodeInstr, Operands, Speak, VoiceInv, TooSoon;
    OperandsByNumber(code[0]);
    OneTurn(code, ip, count, m, env);
    InstrByNumber(code);
    VoiceOutcome(m, env);
  }

  lemma {:induction false} ReachedPaced(p: Program, k: nat, ip: nat, m: Machine, env: Env)
    requires m.Valid() && k <= |p.instrs| && Monotone(env.clock) && VoiceInv(m.vm, env.clock)
    ensures Reached(p, k, ip, m, env).Some? ==> VoiceInv(Reached(p, k, ip, m, env).value.vm, env.clock)
    decreases k
  {
    hide Perform, VoiceInv, Monotone;
    if k > 0 {
      var after := ip + Size(p.instrs[0]);
      var o := Perform(p.instrs[0], m, after, env);
      PerformPaced(p.instrs[0], m, after, env);
      if o.Running? {
        ReachedPaced(Rest(p), k - 1, after, o.machine, env);
      }
    }
  }

  /**
   * After any uses of the engine since power-on, in any module, at any voice instruction that is
   * reached: it is accepted exactly when it does not come too soon - so always when the last voice
   * is at least 10000 and less than 2^32 ticks ago.
   */
  lemma VoiceDecided(uses: seq<Use>, strict: bool, clock: nat -> nat, m0: Machine,
                     code: seq<byte>, watch: nat -> Watch, k: nat, ip: nat)
    requires m0.Valid() && Monotone(clock) && m0.vm == POWER_ON && k < |Decode(code).instrs|
    requires Decode(code).instrs[k] == LumeVoice
    requires var m := Session(uses, strict, clock, m0);
             Reached(Decode(code), k, 0, Enter(m, |code|).Logged(VmVerifyOk, |code|), Env(strict, clock, watch)).Some?
    ensures var env := Env(strict, clock, watch);
            var m := Session(uses, strict, clock, m0);
            var at := Reached(Decode(code), k, 0, Enter(m, |code|).Logged(VmVerifyOk, |code|), env).value;
            var t := clock(at.vm.readings);
            && (Perform(LumeVoice, at, ip, env).Running? <==> !TooSoon(at.vm.voices, t))
            && (Perform(LumeVoice, at, ip, env).Running? ==>
                  Perform(LumeVoice, at, ip, env).machine.vm.voices == at.vm.voices + [t])
            && (|at.vm.voices| > 0 && 10000 <= t - at.vm.voices[|at.vm.voices| - 1] < 0x1_0000_0000 ==>
                  Perform(LumeVoice, at, ip, env).Running?)
  {
    hide Session, Decode, Reached, VoiceInv, Monotone, Speak;
    var env := Env(strict, clock, watch);
    var m := Session(uses, strict, clock, m0);
    var start := Enter(m, |code|).Logged(VmVerifyOk, |code|);
    PowerOnPaced(m0, clock);
    SessionPaced(uses, strict, clock, m0);
    EnterKeepsVoices(m, |code|, clock);
    ReachedPaced(Decode(code), k, 0, start, env);
    VoiceOutcome(Reached(Decode(code), k, 0, start, env).value, env);
  }

  lemma PowerOnPaced(m: Machine, clock: nat -> nat)
    requires m.vm == POWER_ON
    ensures VoiceInv(m.vm, clock)
  {
  }

  lemma EnterKeepsVoices(m: Machine, n: nat, clock: nat -> nat)
    requires VoiceInv(m.vm, clock)
    ensures VoiceInv(Enter(m, n).Logged(VmVerifyOk, n).vm, clock)
  {
  }

  // ---------- Admission ----------

  /** Every way into and out of an execution, by the size of the envelope, the depth, the lock bit and the verdict. */
  lemma ExecuteOutcomes(named: bool, envelope: Option<seq<byte>>, locked: bool, verdict: bool, env: Env, m: Machine)
    requires m.Valid()
    ensures var (m', r) := Execute(named, envelope, locked, verdict, env, m);
            var given := named && envelope.Some?;
            var size := if envelope.Some? then |envelope.value| else 0;
            var shaped := given && size % 32 == 0 && 2420 < size <= 65536;
            var entered := shaped && m.vm.callDepth < 16;
            && (r == NullInput <==> !given)
            && (r == TooSmall <==> given && (size % 32 != 0 || size <= 2420))
            && (r == TooLarge <==> given && size % 32 == 0 && size > 65536)
            && (r == StackOverflow <==> shaped && m.vm.callDepth >= 16)
            && (r == SigInvalid <==> entered && !(locked && verdict))
            && (!entered ==> m' == if given && size % 32 != 0 then Noted(m, VmMisaligned, size) else m)
            && (r == SigInvalid ==>
                  m' == m.(log := m.log + [Entry(VmVerifyStart, size - 2420)]
                                  + (if locked then [] else [Entry(TamperVault, 0)])
                                  + [Entry(VmSigFail, 0), Entry(PillOffTriggered, 0x12)]))
  {
    hide Run, Decode, Leave;
    if envelope.Some? && |envelope.value| > SIG_SIZE {
      var code := envelope.value[SIG_SIZE..];
      RunOutcome(Decode(code), 0, 0, Enter(m, |code|).Logged(VmVerifyOk, |code|), env);
      if m.vm.callDepth < 16 {
        RefusalLogged(m, |code|, locked);
      }
    }
  }

  lemma RefusalLogged(m: Machine, n: nat, locked: bool)
    requires m.vm.callDepth < 16
    ensures Refuse(Enter(m, n), locked) ==
              m.(log := m.log + [Entry(VmVerifyStart, n)] + (if locked then [] else [Entry(TamperVault, 0)])
                        + [Entry(VmSigFail, 0), Entry(PillOffTriggered, 0x12)])
  {
    var before := m.log + [Entry(VmVerifyStart, n)] + (if locked then [] else [Entry(TamperVault, 0)]);
    assert Refuse(Enter(m, n), locked).log == before + [Entry(VmSigFail, 0)] + [Entry(PillOffTriggered, 0x12)];
    assert before + [Entry(VmSigFail, 0)] + [Entry(PillOffTriggered, 0x12)]
        == before + [Entry(VmSigFail, 0), Entry(PillOffTriggered, 0x12)];
  }

  /** A well-signed module runs from its byte 2420 on, after two notes of its length, and gives the depth back. */
  lemma ExecuteRuns(envelope: seq<byte>, env: Env, m: Machine)
    requires m.Valid() && !m.vm.inBunker && m.vm.callDepth < 16
    requires |envelope| % 32 == 0 && 2420 < |envelope| <= 65536
    ensures var code := envelope[2420..];
            var entered := m.(vm := m.vm.(callDepth := m.vm.callDepth + 1),
                              log := m.log + [Entry(VmVerifyStart, |code|), Entry(VmVerifyOk, |code|)]);
            var ran := Run(Decode(code), 0, 0, entered, env);
            var left := ran.0;
            Execute(true, Some(envelope), true, true, env, m) ==
              (left.(vm := left.vm.(callDepth := m.vm.callDepth)), ran.1)
  {
    hide Run, Decode, Enter, Leave;
    var code := envelope[2420..];
    var start := Enter(m, |code|).Logged(VmVerifyOk, |code|);
    EnteredParts(m, |code|);
    RunEffect(Decode(code), 0, 0, start, env);
    LeftParts(Run(Decode(code), 0, 0, start, env).0, m.vm.callDepth);
  }

  lemma EnteredParts(m: Machine, n: nat)
    requires m.vm.callDepth < 16
    ensures Enter(m, n).Logged(VmVerifyOk, n) ==
              m.(vm := m.vm.(callDepth := m.vm.callDepth + 1),
                 log := m.log + [Entry(VmVerifyStart, n), Entry(VmVerifyOk, n)])
  {
    assert m.log + [Entry(VmVerifyStart, n)] + [Entry(VmVerifyOk, n)]
        == m.log + [Entry(VmVerifyStart, n), Entry(VmVerifyOk, n)];
  }

  lemma LeftParts(m: Machine, depth: nat)
    requires m.Valid() && !m.vm.inBunker && m.vm.callDepth == depth + 1
    ensures Leave(m) == m.(vm := m.vm.(callDepth := depth))
  {
  }

  /** The check alone, and the reset. */
  lemma VerifyAndResetOutcomes(envelope: Option<seq<byte>>, locked: bool, verdict: bool, m: Machine)
    ensures var (m', r) := Verify(envelope, locked, verdict, m);
            var shaped := envelope.Some? && |envelope.value| % 32 == 0 && |envelope.value| > 2420;
            && (r == TooSmall <==> !shaped)
            && (r == VmOk <==> shaped && locked && verdict)
            && (r == SigInvalid <==> shaped && !(locked && verdict))
            && m' == if shaped && !locked then Noted(m, TamperVault, 0) else m
    ensures EmergencyReset(m) ==
              Noted(m.(bunker := if m.vm.inBunker then BunkerState(Zeros(64), false) else m.bunker,
                       vm := m.vm.(inBunker := false, callDepth := 0)), VmEmergencyReset, 0)
  {
  }
}
