/** Whole runs of modules: the store's counters and the voice rate limit across module boundaries. */
module VmSessions {
  import opened Bytes
  import opened Audit
  import opened ACode
  import opened WearLevelling
  import opened VmSemantics
  import opened VmProperties

  /** One use of the engine from outside, with what the hardware answers during it. */
  datatype Use =
    | ExecuteUse(named: bool, envelope: Option<seq<byte>>, locked: bool, verdict: bool, watch: nat -> Watch)
    | VerifyUse(checked: Option<seq<byte>>, locked: bool, verdict: bool)
    | ResetUse

  function After(u: Use, strict: bool, clock: nat -> nat, m: Machine): (m': Machine)
    requires m.Valid()
    ensures m'.Valid()
  {
    match u
    case ExecuteUse(named, envelope, locked, verdict, watch) =>
      Execute(named, envelope, locked, verdict, Env(strict, clock, watch), m).0
    case VerifyUse(envelope, locked, verdict) => Verify(envelope, locked, verdict, m).0
    case ResetUse => EmergencyReset(m)
  }

  function Session(uses: seq<Use>, strict: bool, clock: nat -> nat, m: Machine): (m': Machine)
    requires m.Valid()
    ensures m'.Valid()
    decreases |uses|
  {
    if |uses| == 0 then m else Session(uses[1..], strict, clock, After(uses[0], strict, clock, m))
  }

  // ---------- Stores over a session ----------

  /** The instructions that one use performs. */
  function UsedInstrs(u: Use, strict: bool, clock: nat -> nat, m: Machine): seq<Instr>
    requires m.Valid()
  {
    if u.ExecuteUse? then
      ExecutedInstrs(u.named, u.envelope, u.locked, u.verdict, Env(strict, clock, u.watch), m)
    else []
  }

  /** All instructions the session performs, use by use. */
  function Trace(uses: seq<Use>, strict: bool, clock: nat -> nat, m: Machine): seq<Instr>
    requires m.Valid()
    decreases |uses|
  {
    if |uses| == 0 then []
    else UsedInstrs(uses[0], strict, clock, m) + Trace(uses[1..], strict, clock, After(uses[0], strict, clock, m))
  }

  lemma {:induction false} CountStoresConcat(a: seq<Instr>, b: seq<Instr>)
    ensures CountStores(a + b) == CountStores(a) + CountStores(b)
    decreases |a|
  {
    if |a| == 0 {
      assert a + b == b;
    } else {
      assert (a + b)[1..] == a[1..] + b;
      CountStoresConcat(a[1..], b);
    }
  }

  lemma UseStores(u: Use, strict: bool, clock: nat -> nat, m: Machine)
    requires m.Valid()
    ensures var n := CountStores(UsedInstrs(u, strict, clock, m));
            && After(u, strict, clock, m).vault.wear == Stores(m.vault.wear, n)
            && After(u, strict, clock, m).vm.callDepth == (if u.ResetUse? then 0 else m.vm.callDepth)
  {
    hide Execute, ExecutedInstrs, Stores, CountStores;
    NoStores(m.vault.wear);
    if u.ExecuteUse? {
      ExecuteEffect(u.named, u.envelope, u.locked, u.verdict, Env(strict, clock, u.watch), m);
    }
  }

  ghost predicate HasReset(uses: seq<Use>) {
    exists i :: 0 <= i < |uses| && uses[i].ResetUse?
  }

  lemma HasResetSplit(uses: seq<Use>)
    requires |uses| > 0
    ensures HasReset(uses) <==> uses[0].ResetUse? || HasReset(uses[1..])
  {
    if HasReset(uses) && !uses[0].ResetUse? {
      var i :| 0 <= i < |uses| && uses[i].ResetUse?;
      assert uses[1..][i - 1].ResetUse?;
    }
    if HasReset(uses[1..]) {
      var i :| 0 <= i < |uses[1..]| && uses[1..][i].ResetUse?;
      assert uses[i + 1].ResetUse?;
    }
  }

  /**
   * The store's context after any session is exactly one store for each VFS_STORE performed, and
   * every use gives the call depth back, except that a reset clears it.
   */
  lemma {:induction false} SessionStores(uses: seq<Use>, strict: bool, clock: nat -> nat, m: Machine)
    requires m.Valid()
    ensures var n := CountStores(Trace(uses, strict, clock, m));
            var m' := Session(uses, strict, clock, m);
            && m'.vault.wear == Stores(m.vault.wear, n)
            && m'.vault.wear.generation == (m.vault.wear.generation + n) % WRAP
            && m'.vm.callDepth == (if HasReset(uses) then 0 else m.vm.callDepth)
    decreases |uses|
  {
    hide After, UsedInstrs, Stores, CountStores, HasReset;
    GenerationAfter(m.vault.wear, CountStores(Trace(uses, strict, clock, m)));
    if |uses| == 0 {
      NoStores(m.vault.wear);
      NoReset();
    } else {
      var here := UsedInstrs(uses[0], strict, clock, m);
      var next := After(uses[0], strict, clock, m);
      var later := Trace(uses[1..], strict, clock, next);
      UseStores(uses[0], strict, clock, m);
      SessionStores(uses[1..], strict, clock, next);
      CountStoresConcat(here, later);
      StoresCompose(m.vault.wear, CountStores(here), CountStores(later));
      HasResetSplit(uses);
    }
  }

  lemma NoReset()
    ensures !HasReset([])
  {
  }

  lemma NoStores(w: Wear)
    requires w.Valid()
    ensures CountStores([]) == 0 && Stores(w, 0) == w
  {
  }

  // ---------- The reset frees the call depth for good ----------

  lemma DepthDecides(named: bool, envelope: Option<seq<byte>>, locked: bool, verdict: bool, env: Env, m: Machine)
    requires m.Valid()
    ensures Execute(named, envelope, locked, verdict, env, m).1 == StackOverflow
       <==> named && envelope.Some? && Admissible(|envelope.value|) && m.vm.callDepth >= MAX_DEPTH
  {
    hide Run, Decode, Leave;
    if envelope.Some? && |envelope.value| > SIG_SIZE {
      var code := envelope.value[SIG_SIZE..];
      RunOutcome(Decode(code), 0, 0, Enter(m, |code|).Logged(VmVerifyOk, |code|), env);
    }
  }

  /**
   * A machine whose call depth is used up refuses every admissible module; after a reset none is
   * ever refused for depth again, whatever the engine is used for in between.
   */
  lemma ResetUnblocks(uses: seq<Use>, strict: bool, clock: nat -> nat, m: Machine, u: Use)
    requires m.Valid() && u.ExecuteUse? && u.named && u.envelope.Some? && Admissible(|u.envelope.value|)
    ensures var env := Env(strict, clock, u.watch);
            var later := Session(uses, strict, clock, EmergencyReset(m));
            var refused := Execute(true, u.envelope, u.locked, u.verdict, env, m).1 == StackOverflow;
            && (refused <==> m.vm.callDepth >= MAX_DEPTH)
            && Execute(true, u.envelope, u.locked, u.verdict, env, later).1 != StackOverflow
  {
    hide Execute, Session;
    var env := Env(strict, clock, u.watch);
    SessionStores(uses, strict, clock, EmergencyReset(m));
    DepthDecides(true, u.envelope, u.locked, u.verdict, env, m);
    DepthDecides(true, u.envelope, u.locked, u.verdict, env, Session(uses, strict, clock, EmergencyReset(m)));
  }

  // ---------- The voice rate limit ----------

  /** Consecutive accepted voices are in order, and apart unless the earlier one read tick zero. */
  ghost predicate Paced(voices: seq<nat>) {
    forall j :: 0 <= j < |voices| - 1 ==>
      voices[j] <= voices[j + 1] && (voices[j] % WRAP == 0 || voices[j + 1] - voices[j] >= VOICE_GAP)
  }

  /** Ties the 32-bit tick the engine remembers to the true time of the last accepted voice. */
  ghost predicate VoiceInv(vm: VmState, clock: nat -> nat) {
    && Paced(vm.voices)
    && (|vm.voices| == 0 ==> vm.lastVoice == 0)
    && (|vm.voices| > 0 ==>
          vm.lastVoice == vm.voices[|vm.voices| - 1] % WRAP && vm.voices[|vm.voices| - 1] <= clock(vm.readings))
  }

  ghost predicate Monotone(clock: nat -> nat) {
    forall j: nat, k: nat :: j <= k ==> clock(j) <= clock(k)
  }

  /** A wrapped tick difference never exceeds the true one. */
  lemma WrappedGap(earlier: nat, later: nat)
    requires earlier <= later
    ensures TicksSince(later % WRAP, earlier % WRAP) == (later - earlier) % WRAP <= later - earlier
  {
    var d := later - earlier;
    assert later == earlier + d;
    assert (later % WRAP - earlier % WRAP - d) % WRAP == 0 by {
      assert later % WRAP - earlier % WRAP - d == WRAP * (earlier / WRAP - later / WRAP);
    }
  }

  lemma PacedAppend(voices: seq<nat>, t: nat)
    requires Paced(voices)
    requires |voices| > 0 ==>
               var last := voices[|voices| - 1];
               last <= t && (last % WRAP == 0 || t - last >= VOICE_GAP)
    ensures Paced(voices + [t])
  {
  }

  lemma SpeakPaced(m: Machine, env: Env)
    requires m.Valid() && Monotone(env.clock) && VoiceInv(m.vm, env.clock)
    ensures VoiceInv(Speak(m, env).machine.vm, env.clock)
  {
    hide Paced, TicksSince;
    var t := env.clock(m.vm.readings);
    assert t <= env.clock(m.vm.readings + 1);
    var n := |m.vm.voices|;
    if n > 0 {
      WrappedGap(m.vm.voices[n - 1], t);
    }
    if !TooEarly(m.vm.lastVoice, Tick(m, env)) {
      PacedAppend(m.vm.voices, t);
    }
  }

  lemma PerformPaced(i: Instr, m: Machine, ip: nat, env: Env)
    requires m.Valid() && Monotone(env.clock) && VoiceInv(m.vm, env.clock)
    ensures VoiceInv(Perform(i, m, ip, env).machine.vm, env.clock)
  {
    hide Speak, VoiceInv;
    SpeakPaced(m, env);
    VoiceInvIgnoresBunker(m.vm, env.clock);
  }

  lemma VoiceInvIgnoresBunker(vm: VmState, clock: nat -> nat)
    requires VoiceInv(vm, clock)
    ensures forall b, d :: VoiceInv(vm.(inBunker := b, callDepth := d), clock)
    ensures forall b :: VoiceInv(vm.(inBunker := b), clock)
  {
  }

  lemma {:induction false} RunPaced(p: Program, ip: nat, count: nat, m: Machine, env: Env)
    requires m.Valid() && Monotone(env.clock) && VoiceInv(m.vm, env.clock)
    ensures VoiceInv(Run(p, ip, count, m, env).0.vm, env.clock)
    decreases |p.instrs|
  {
    hide Perform, VoiceInv, Monotone;
    if |p.instrs| > 0 {
      var after := ip + Size(p.instrs[0]);
      var o := Perform(p.instrs[0], m, after, env);
      PerformPaced(p.instrs[0], m, after, env);
      if o.Running? {
        RunPaced(Rest(p), after, count + 1, o.machine, env);
      }
    }
  }

  lemma ExecutePaced(named: bool, envelope: Option<seq<byte>>, locked: bool, verdict: bool, env: Env, m: Machine)
    requires m.Valid() && Monotone(env.clock) && VoiceInv(m.vm, env.clock)
    ensures VoiceInv(Execute(named, envelope, locked, verdict, env, m).0.vm, env.clock)
  {
    hide Run, Decode, Monotone;
    if envelope.Some? && |envelope.value| > SIG_SIZE {
      var code := envelope.value[SIG_SIZE..];
      RunPaced(Decode(code), 0, 0, Enter(m, |code|).Logged(VmVerifyOk, |code|), env);
    }
  }

  lemma UsePaced(u: Use, strict: bool, clock: nat -> nat, m: Machine)
    requires m.Valid() && Monotone(clock) && VoiceInv(m.vm, clock)
    ensures VoiceInv(After(u, strict, clock, m).vm, clock)
  {
    hide Execute, Monotone, Paced;
    if u.ExecuteUse? {
      ExecutePaced(u.named, u.envelope, u.locked, u.verdict, Env(strict, clock, u.watch), m);
    }
  }

  lemma {:induction false} SessionPaced(uses: seq<Use>, strict: bool, clock: nat -> nat, m: Machine)
    requires m.Valid() && Monotone(clock) && VoiceInv(m.vm, clock)
    ensures VoiceInv(Session(uses, strict, clock, m).vm, clock)
    decreases |uses|
  {
    hide After, VoiceInv, Monotone;
    if |uses| > 0 {
      UsePaced(uses[0], strict, clock, m);
      SessionPaced(uses[1..], strict, clock, After(uses[0], strict, clock, m));
    }
  }

  // ---------- The voices are the ones in the audit log ----------

  function CountVoices(log: seq<Entry>): nat
    decreases |log|
  {
    if |log| == 0 then 0
    else CountVoices(log[..|log| - 1]) + if log[|log| - 1].event == VmLumeVoice then 1 else 0
  }

  /** The log has grown by as many voice events as voices were accepted. */
  ghost predicate VoicesLogged(m: Machine, m': Machine) {
    CountVoices(m'.log) + |m.vm.voices| == CountVoices(m.log) + |m'.vm.voices|
  }

  lemma CountAppend(log: seq<Entry>, e: Entry)
    ensures CountVoices(log + [e]) == CountVoices(log) + if e.event == VmLumeVoice then 1 else 0
  {
    assert (log + [e])[..|log|] == log;
  }

  lemma LoggedVoices(m: Machine, event: Event, data: nat)
    ensures CountVoices(m.Logged(event, data).log) == CountVoices(m.log) + if event == VmLumeVoice then 1 else 0
  {
    CountAppend(m.log, Entry(event, data));
  }

  lemma ReflexLogsNoVoice(m: Machine, reason: nat)
    ensures CountVoices(Reflex(m, reason).log) == CountVoices(m.log)
  {
    LoggedVoices(m, VmReflex, reason);
    LoggedVoices(m.Logged(VmReflex, reason), PillOffTriggered, TAMPER_CODE);
  }

  lemma SpeakLogsVoices(m: Machine, env: Env)
    requires m.Valid()
    ensures VoicesLogged(m, Speak(m, env).machine)
  {
    hide CountVoices, TooEarly, Reflex;
    ReflexLogsNoVoice(m.(vm := m.vm.(readings := m.vm.readings + 1)), 0x05);
    CountAppend(m.log, Entry(VmLumeVoice, 0));
    ReflexVm(m.(vm := m.vm.(readings := m.vm.readings + 1)), 0x05);
  }

  lemma ReflexVm(m: Machine, reason: nat)
    ensures Reflex(m, reason).vm == m.vm
  {
  }

  lemma PerformLogsVoices(i: Instr, m: Machine, ip: nat, env: Env)
    requires m.Valid()
    ensures VoicesLogged(m, Perform(i, m, ip, env).machine)
  {
    hide CountVoices, Store, Speak;
    match i
    case InitMod => CountAppend(m.log, Entry(VmOpInit, 0));
    case IdentityGen => CountAppend(m.log, Entry(VmIdentityRegen, 0));
    case VfsStore(id) => CountAppend(m.log, Entry(VmBusPub, id));
    case VfsFetch(_) =>
    case BusPub => CountAppend(m.log, Entry(VmBusPub, 0));
    case ExtMount(slot) => CountAppend(m.log, Entry(VmExtMount, slot as nat));
    case ReflexAction => CountAppend(m.log, Entry(TamperVault, 0xFFFF_FFFF));
    case LumeVoice => SpeakLogsVoices(m, env);
    case Halt => CountAppend(m.log, Entry(VmHalt, ip));
    case Unknown(op) => CountAppend(m.log, Entry(VmUnknownOp, op as nat));
  }

  lemma {:induction false} RunLogsVoices(p: Program, ip: nat, count: nat, m: Machine, env: Env)
    requires m.Valid()
    ensures VoicesLogged(m, Run(p, ip, count, m, env).0)
    decreases |p.instrs|
  {
    hide Perform, CountVoices;
    var alarm := Alarm(count, env.watch(count));
    if alarm.Some? {
      ReflexLogsNoVoice(m, alarm.value);
    } else if |p.instrs| > 0 {
      var after := ip + Size(p.instrs[0]);
      var o := Perform(p.instrs[0], m, after, env);
      PerformLogsVoices(p.instrs[0], m, after, env);
      if o.Running? {
        RunLogsVoices(Rest(p), after, count + 1, o.machine, env);
      }
    }
  }

  lemma ExecuteLogsVoices(named: bool, envelope: Option<seq<byte>>, locked: bool, verdict: bool, env: Env, m: Machine)
    requires m.Valid()
    ensures VoicesLogged(m, Execute(named, envelope, locked, verdict, env, m).0)
  {
    hide Run, Decode, CountVoices;
    if envelope.Some? {
      var size := |envelope.value|;
      LoggedVoices(m, VmMisaligned, size);
      if size > SIG_SIZE {
        var code := envelope.value[SIG_SIZE..];
        var m1 := Enter(m, |code|);
        LoggedVoices(m, VmVerifyStart, |code|);
        LoggedVoices(m1, VmVerifyOk, |code|);
        RefuseLogsNoVoice(m1, locked);
        RunLogsVoices(Decode(code), 0, 0, m1.Logged(VmVerifyOk, |code|), env);
      }
    }
  }

  lemma UseLogsVoices(u: Use, strict: bool, clock: nat -> nat, m: Machine)
    requires m.Valid()
    ensures VoicesLogged(m, After(u, strict, clock, m))
  {
    hide Execute, CountVoices;
    LoggedVoices(m, TamperVault, 0);
    LoggedVoices(m, VmEmergencyReset, 0);
    if u.ExecuteUse? {
      ExecuteLogsVoices(u.named, u.envelope, u.locked, u.verdict, Env(strict, clock, u.watch), m);
    }
  }

  lemma RefuseLogsNoVoice(m: Machine, locked: bool)
    ensures CountVoices(Refuse(m, locked).log) == CountVoices(m.log)
  {
    hide CountVoices;
    var m' := if locked then m else m.Logged(TamperVault, 0);
    LoggedVoices(m, TamperVault, 0);
    LoggedVoices(m', VmSigFail, 0);
    LoggedVoices(m'.Logged(VmSigFail, 0), PillOffTriggered, TAMPER_CODE);
  }

  /** Over any session, the accepted voices counted by the rate limit are exactly the logged ones. */
  lemma {:induction false} SessionLogsVoices(uses: seq<Use>, strict: bool, clock: nat -> nat, m: Machine)
    requires m.Valid()
    ensures VoicesLogged(m, Session(uses, strict, clock, m))
    decreases |uses|
  {
    hide After, CountVoices;
    if |uses| > 0 {
      UseLogsVoices(uses[0], strict, clock, m);
      SessionLogsVoices(uses[1..], strict, clock, After(uses[0], strict, clock, m));
    }
  }

  /** In a stretch of voices none of which but the last may have read tick zero, each costs a full gap. */
  lemma {:induction false} StretchCost(voices: seq<nat>, i: nat, j: nat)
    requires Paced(voices) && i <= j < |voices|
    requires forall k :: i <= k < j ==> voices[k] % WRAP != 0
    ensures voices[j] - voices[i] >= VOICE_GAP * (j - i)
    decreases j
  {
    if i < j {
      StretchCost(voices, i, j - 1);
      assert voices[j - 1 + 1] - voices[j - 1] >= VOICE_GAP;
    }
  }

  /** A span of `t` ticks that avoids tick zero holds at most t / 10000 + 1 of any paced voices. */
  lemma SpanHolds(voices: seq<nat>, start: nat, t: nat, i: nat, j: nat)
    requires Paced(voices) && i <= j < |voices|
    requires forall x :: start <= x <= start + t ==> x % WRAP != 0
    requires start <= voices[i] && voices[j] <= start + t
    ensures j - i + 1 <= t / VOICE_GAP + 1
  {
    OrderedVoices(voices, i, j);
    StretchCost(voices, i, j);
    GapDivides(t, j - i);
  }

  /**
   * Over any session from power-on, whatever the modules and however many attempts are refused:
   * a span of `t` ticks that avoids tick zero holds at most t / 10000 + 1 accepted voices.
   */
  lemma VoiceRate(uses: seq<Use>, strict: bool, clock: nat -> nat, m: Machine, start: nat, t: nat, i: nat, j: nat)
    requires m.Valid() && Monotone(clock) && m.vm == POWER_ON
    requires forall x :: start <= x <= start + t ==> x % WRAP != 0
    requires i <= j < |Session(uses, strict, clock, m).vm.voices|
    requires start <= Session(uses, strict, clock, m).vm.voices[i]
    requires Session(uses, strict, clock, m).vm.voices[j] <= start + t
    ensures j - i + 1 <= t / VOICE_GAP + 1
  {
    hide Session, Monotone;
    SessionPaced(uses, strict, clock, m);
    SpanHolds(Session(uses, strict, clock, m).vm.voices, start, t, i, j);
  }

  lemma {:induction false} OrderedVoices(voices: seq<nat>, i: nat, j: nat)
    requires Paced(voices) && i <= j < |voices|
    ensures forall k :: i <= k <= j ==> voices[i] <= voices[k] <= voices[j]
    decreases j
  {
    if i < j {
      OrderedVoices(voices, i, j - 1);
      assert voices[j - 1] <= voices[j - 1 + 1];
    }
  }

  lemma GapDivides(t: nat, n: nat)
    requires VOICE_GAP * n <= t
    ensures n <= t / VOICE_GAP
  {
  }
}
