/** The engine: the bytecode loop over raw bytes, proved to be the fold over decoded instructions. */
module VmEngine {
  import opened Bytes
  import opened Audit
  import opened ACode
  import opened WearLevelling
  import opened VaultStore
  import opened BunkerStore
  import opened VmSemantics

  class Vm {
    const log: Log
    const vault: Vault
    const bunker: Bunker
    const strict: bool
    var inBunker: bool
    var callDepth: uint32
    var lastVoice: uint32
    var readings: nat
    ghost var voices: seq<nat>

    ghost predicate Valid() {
      vault.Valid() && bunker.Valid() && vault.log == log && bunker.eph != vault.mpk
    }

    ghost function State(): Machine
      reads this, log, vault, vault.counts, vault.mpk, bunker, bunker.eph
    {
      Machine(VmState(inBunker, callDepth, lastVoice, readings, voices), vault.State(), bunker.State(), log.entries)
    }

    constructor (log: Log, vault: Vault, bunker: Bunker, strict: bool)
      requires vault.Valid() && bunker.Valid() && vault.log == log && bunker.eph != vault.mpk
      ensures Valid() && this.log == log && this.vault == vault && this.bunker == bunker && this.strict == strict
      ensures State() == Machine(POWER_ON, vault.State(), bunker.State(), log.entries)
    {
      this.log, this.vault, this.bunker, this.strict := log, vault, bunker, strict;
      inBunker, callDepth, lastVoice, readings := false, 0, 0, 0;
      voices := [];
    }

    /** HAL_GetTick: the next reading of the clock, cut to 32 bits. */
    method GetTick(clock: nat -> nat) returns (now: uint32)
      modifies this`readings
      ensures now == clock(old(readings)) % WRAP && readings == old(readings) + 1
    {
      now := clock(readings) % WRAP;
      readings := readings + 1;
    }

    method ReflexTrigger(reason: nat)
      requires Valid()
      modifies log
      ensures State() == Reflex(old(State()), reason)
    {
      log.Add(VmReflex, reason);
      log.Add(PillOffTriggered, TAMPER_CODE);
    }

    method IdentityRegen()
      requires Valid()
      modifies this`inBunker, bunker, bunker.eph, log
      ensures forall env, ip :: Running(State()) == Perform(IdentityGen, old(State()), ip, env)
    {
      bunker.Enter();
      inBunker := true;
      bunker.KeygenDilithium2();
      bunker.Exit();
      inBunker := false;
      log.Add(VmIdentityRegen, 0);
    }

    method Voice(env: Env) returns (stop: bool)
      requires Valid()
      modifies this`readings, this`lastVoice, this`voices, log
      ensures Speak(old(State()), env) == if stop then Stopped(State(), PillOff) else Running(State())
    {
      var now := GetTick(env.clock);
      if lastVoice != 0 && (now - lastVoice) % WRAP < VOICE_GAP {
        ReflexTrigger(0x05);
        return true;
      }
      lastVoice := now;
      voices := voices + [env.clock(old(readings))];
      log.Add(VmLumeVoice, 0);
      return false;
    }

    /** The switch: performs the opcode at `ip` and says where to go on, or why to stop. */
    method Dispatch(code: seq<byte>, ip0: nat, env: Env) returns (ip: nat, result: VmResult, stop: bool)
      requires Valid() && ip0 < |code| && env.strict == strict
      modifies this`inBunker, this`readings, this`lastVoice, this`voices
      modifies log, vault, vault.counts, vault.mpk, bunker, bunker.eph
      ensures |code| - ip0 < 1 + Operands(code[ip0]) ==> stop && result == UnknownOpcode && State() == old(State())
      ensures |code| - ip0 >= 1 + Operands(code[ip0]) ==>
                var i := DecodeInstr(code[ip0..]);
                Perform(i, old(State()), ip0 + Size(i), env)
                  == (if stop then Stopped(State(), result) else Running(State())) &&
                (!stop ==> ip == ip0 + Size(i) && result == VmOk)
    {
      hide Speak, Store, LE, FromLE, IsOpcode, Proper;
      result, stop, ip := VmOk, false, ip0;
      var op := code[ip];
      ip := ip + 1;
      if op == OP_INIT_MOD {
        log.Add(VmOpInit, 0);
      } else if op == OP_IDENTITY_GEN {
        IdentityRegen();
      } else if op == OP_VFS_STORE {
        if ip + 2 > |code| { return ip, UnknownOpcode, true; }
        var objId := Load16(code[ip..ip + 2]);
        ip := ip + 2;
        vault.VfsStore(objId);
        assert code[ip0..][1..3] == code[ip0 + 1..ip0 + 3];
      } else if op == OP_VFS_FETCH {
        if ip + 2 > |code| { return ip, UnknownOpcode, true; }
        ip := ip + 2;
      } else if op == OP_BUS_PUB {
        log.Add(VmBusPub, 0);
      } else if op == OP_EXT_MOUNT {
        if ip + 1 > |code| { return ip, UnknownOpcode, true; }
        var slot := code[ip];
        ip := ip + 1;
        NatOfByte(slot);
        log.Add(VmExtMount, slot as nat);
      } else if op == OP_REFLEX_ACTION {
        vault.EmergencyWipe();
        return ip, PillOff, true;
      } else if op == OP_LUME_VOICE {
        stop := Voice(env);
        if stop { result := PillOff; }
      } else if op == OP_HALT {
        log.Add(VmHalt, ip);
        return ip, VmOk, true;
      } else {
        NatOfByte(op);
        log.Add(VmUnknownOp, op as nat);
        if strict { return ip, UnknownOpcode, true; }
      }
    }

    /** The execution loop. */
    method RunCode(code: seq<byte>, env: Env) returns (result: VmResult)
      requires Valid() && env.strict == strict
      modifies this`inBunker, this`readings, this`lastVoice, this`voices
      modifies log, vault, vault.counts, vault.mpk, bunker, bunker.eph
      ensures (State(), result) == Run(Decode(code), 0, 0, old(State()), env)
    {
      hide Perform, Run, Decode, DecodeInstr, Operands;
      var ip, count := 0, 0;
      result := VmOk;
      assert code[0..] == code;
      while ip < |code|
        invariant ip <= |code| && result == VmOk
        invariant Run(Decode(code[ip..]), ip, count, State(), env) == Run(Decode(code), 0, 0, old(State()), env)
        decreases |code| - ip
      {
        RunUnfold(code, ip, count, State(), env);
        if env.watch(count) == GuardSmashed {
          ReflexTrigger(0x04);
          return PillOff;
        }
        count := count + 1;
        if count > MAX_INSTRUCTIONS {
          ReflexTrigger(0x01);
          return PillOff;
        }
        if env.watch(count - 1) == Probed {
          ReflexTrigger(0x02);
          return PillOff;
        }
        var stop;
        ip, result, stop := Dispatch(code, ip, env);
        if stop { return; }
      }
      RunNothing(ip, count, State(), env);
    }

    /** The signature check: the lock bit first, then the verdict of the verifier. */
    method IntegrityVerify(locked: bool, verdict: bool) returns (result: VmResult)
      requires Valid()
      modifies log
      ensures result == if locked && verdict then VmOk else SigInvalid
      ensures State() == if locked then old(State()) else old(State()).Logged(TamperVault, 0)
    {
      if !locked {
        log.Add(TamperVault, 0);
        return SigInvalid;
      }
      return if verdict then VmOk else SigInvalid;
    }

    /** The common exit of the loop. */
    method LeaveEngine()
      requires Valid()
      modifies this`inBunker, this`callDepth, bunker, bunker.eph
      ensures State() == Leave(old(State()))
    {
      if inBunker {
        bunker.Exit();
        inBunker := false;
      }
      callDepth := Decremented(callDepth);
    }

    /** The signature check, the loop, and the common exit. */
    method ExecuteSigned(code: seq<byte>, locked: bool, verdict: bool, env: Env) returns (result: VmResult)
      requires Valid() && env.strict == strict && callDepth < MAX_DEPTH
      modifies this, log, vault, vault.counts, vault.mpk, bunker, bunker.eph
      ensures (State(), result) == RunSigned(code, locked, verdict, env, old(State()))
    {
      hide Run, Decode, Leave;
      callDepth := callDepth + 1;
      log.Add(VmVerifyStart, |code|);
      ghost var entered := State();
      assert entered == Enter(old(State()), |code|);
      hide Enter;
      var checked := IntegrityVerify(locked, verdict);
      if checked != VmOk {
        log.Add(VmSigFail, 0);
        log.Add(PillOffTriggered, TAMPER_CODE);
        callDepth := Decremented(callDepth);
        return SigInvalid;
      }
      log.Add(VmVerifyOk, |code|);
      assert State() == entered.Logged(VmVerifyOk, |code|);
      hide Refuse;
      result := RunCode(code, env);
      LeaveEngine();
    }

    method ExecuteModule(named: bool, envelope: Option<seq<byte>>, locked: bool, verdict: bool, env: Env)
      returns (result: VmResult)
      requires Valid() && env.strict == strict
      modifies this, log, vault, vault.counts, vault.mpk, bunker, bunker.eph
      ensures (State(), result) == Execute(named, envelope, locked, verdict, env, old(State()))
    {
      hide RunSigned;
      if envelope == None || !named { return NullInput; }
      var size := |envelope.value|;
      if size % 32 != 0 {
        log.Add(VmMisaligned, size);
        return TooSmall;
      }
      if size <= SIG_SIZE { return TooSmall; }
      if size > MAX_MODULE { return TooLarge; }
      if callDepth >= MAX_DEPTH { return StackOverflow; }
      result := ExecuteSigned(envelope.value[SIG_SIZE..], locked, verdict, env);
    }

    method VerifyModule(envelope: Option<seq<byte>>, locked: bool, verdict: bool) returns (result: VmResult)
      requires Valid()
      modifies log
      ensures (State(), result) == Verify(envelope, locked, verdict, old(State()))
    {
      if envelope == None || |envelope.value| % 32 != 0 { return TooSmall; }
      if |envelope.value| <= SIG_SIZE { return TooSmall; }
      result := IntegrityVerify(locked, verdict);
    }

    method Reset()
      requires Valid()
      modifies this`inBunker, this`callDepth, bunker, bunker.eph, log
      ensures State() == EmergencyReset(old(State()))
    {
      if inBunker {
        bunker.Exit();
        inBunker := false;
      }
      callDepth := 0;
      log.Add(VmEmergencyReset, 0);
    }
  }

  lemma RunNothing(ip: nat, count: nat, m: Machine, env: Env)
    requires m.Valid()
    ensures Run(Decode([]), ip, count, m, env) == (m, VmOk)
  {
  }

  /** One iteration of the loop, as the fold sees it. */
  lemma RunUnfold(code: seq<byte>, ip: nat, count: nat, m: Machine, env: Env)
    requires m.Valid() && ip < |code|
    ensures Alarm(count, env.watch(count)).Some? ==>
              Run(Decode(code[ip..]), ip, count, m, env)
                == (Reflex(m, Alarm(count, env.watch(count)).value), PillOff)
    ensures Alarm(count, env.watch(count)).None? && |code| - ip < 1 + Operands(code[ip]) ==>
              Run(Decode(code[ip..]), ip, count, m, env) == (m, UnknownOpcode)
    ensures Alarm(count, env.watch(count)).None? && |code| - ip >= 1 + Operands(code[ip]) ==>
              var i := DecodeInstr(code[ip..]);
              var after := ip + Size(i);
              after <= |code| &&
              Run(Decode(code[ip..]), ip, count, m, env) ==
                match Perform(i, m, after, env)
                case Running(m') => Run(Decode(code[after..]), after, count + 1, m', env)
                case Stopped(m', result) => (m', result)
  {
    hide Perform, DecodeInstr, Alarm;
    if |code| - ip >= 1 + Operands(code[ip]) {
      var i := DecodeInstr(code[ip..]);
      assert code[ip..][Size(i)..] == code[ip + Size(i)..];
      DecodeStep(code[ip..]);
      var p := Decode(code[ip..]);
      assert p.instrs[1..] == Decode(code[ip + Size(i)..]).instrs;
    }
  }
}
