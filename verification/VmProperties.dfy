/** Theorems about modules: exact outcomes, the instruction cap, effects, and the voice rate limit. */
module VmProperties {
  import opened Bytes
  import opened Audit
  import opened ACode
  import opened WearLevelling
  import opened VaultStore
  import opened BunkerStore
  import opened VmSemantics

  /** No watchdog sees anything. */
  ghost predicate Calm(env: Env) {
    forall k :: env.watch(k) == Quiet
  }

  function Rest(p: Program): Program
    requires |p.instrs| > 0
  {
    Program(p.instrs[1..], p.tail)
  }

  // ---------- The watchdogs never cut an admitted module short ----------

  /** The plain fold of the per-instruction semantics, without watchdogs or instruction cap. */
  function Fold(p: Program, ip: nat, m: Machine, env: Env): (o: (Machine, VmResult))
    requires m.Valid()
    ensures o.0.Valid()
    decreases |p.instrs|
  {
    if |p.instrs| == 0 then (m, if |p.tail| == 0 then VmOk else UnknownOpcode)
    else
      var after := ip + Size(p.instrs[0]);
      match Perform(p.instrs[0], m, after, env)
      case Running(m') => Fold(Rest(p), after, m', env)
      case Stopped(m', result) => (m', result)
  }

  lemma {:induction false} RunIsFold(p: Program, ip: nat, count: nat, m: Machine, env: Env)
    requires m.Valid() && Calm(env) && count + |p.instrs| + |p.tail| <= MAX_INSTRUCTIONS
    ensures Run(p, ip, count, m, env) == Fold(p, ip, m, env)
    decreases |p.instrs|
  {
    hide Perform;
    assert env.watch(count) == Quiet;
    if |p.instrs| > 0 {
      var after := ip + Size(p.instrs[0]);
      var o := Perform(p.instrs[0], m, after, env);
      if o.Running? {
        RunIsFold(Rest(p), after, count + 1, o.machine, env);
      }
    }
  }

  /** With an intact guard and no probe, an admitted module runs exactly as the plain fold. */
  lemma AdmittedRunIsFold(envelope: seq<byte>, m: Machine, env: Env)
    requires m.Valid() && Calm(env) && Admissible(|envelope|)
    ensures |envelope[SIG_SIZE..]| <= 63116
    ensures Run(Decode(envelope[SIG_SIZE..]), 0, 0, m, env) == Fold(Decode(envelope[SIG_SIZE..]), 0, m, env)
  {
    hide Decode;
    RunIsFold(Decode(envelope[SIG_SIZE..]), 0, 0, m, env);
  }

  // ---------- Exact outcomes ----------

  /** The machine when instruction `k` is reached, if the ones before it let the module go on. */
  function Reached(p: Program, k: nat, ip: nat, m: Machine, env: Env): (r: Option<Machine>)
    requires m.Valid() && k <= |p.instrs|
    ensures r.Some? ==> r.value.Valid()
    decreases k
  {
    if k == 0 then Some(m)
    else
      var after := ip + Size(p.instrs[0]);
      match Perform(p.instrs[0], m, after, env)
      case Running(m') => Reached(Rest(p), k - 1, after, m', env)
      case Stopped(_, _) => None
  }

  /** How an instruction ends the module when it is performed in `m`; None if it does not. */
  function Ending(i: Instr, m: Machine, env: Env): Option<VmResult> {
    if i == ReflexAction then Some(PillOff)
    else if i == LumeVoice && TooEarly(m.vm.lastVoice, Tick(m, env)) then Some(PillOff)
    else if i == Halt then Some(VmOk)
    else if i.Unknown? && env.strict then Some(UnknownOpcode)
    else None
  }

  lemma PerformEnding(i: Instr, m: Machine, ip: nat, env: Env)
    requires m.Valid()
    ensures Perform(i, m, ip, env).Stopped? <==> Ending(i, m, env).Some?
    ensures Perform(i, m, ip, env).Stopped? ==> Perform(i, m, ip, env).result == Ending(i, m, env).value
  {
  }

  /** Instruction `k` is reached and ends the module with `r`. */
  ghost predicate EndsAt(p: Program, k: nat, r: VmResult, ip: nat, m: Machine, env: Env)
    requires m.Valid()
  {
    && k < |p.instrs|
    && Reached(p, k, ip, m, env).Some?
    && Ending(p.instrs[k], Reached(p, k, ip, m, env).value, env) == Some(r)
  }

  /** The module runs through all its instructions. */
  ghost predicate RunsThrough(p: Program, ip: nat, m: Machine, env: Env)
    requires m.Valid()
  {
    Reached(p, |p.instrs|, ip, m, env).Some?
  }

  lemma {:induction false} FoldOutcome(p: Program, ip: nat, m: Machine, env: Env)
    requires m.Valid()
    ensures RunsThrough(p, ip, m, env) ==>
              Fold(p, ip, m, env).1 == if |p.tail| == 0 then VmOk else UnknownOpcode
    ensures !RunsThrough(p, ip, m, env) ==> exists k: nat :: EndsAt(p, k, Fold(p, ip, m, env).1, ip, m, env)
    decreases |p.instrs|
  {
    hide Perform, Ending;
    if |p.instrs| > 0 {
      var after := ip + Size(p.instrs[0]);
      var o := Perform(p.instrs[0], m, after, env);
      PerformEnding(p.instrs[0], m, after, env);
      if o.Stopped? {
        assert Reached(p, |p.instrs|, ip, m, env) == None;
        assert Fold(p, ip, m, env).1 == o.result;
        assert EndsAt(p, 0, o.result, ip, m, env);
      } else {
        var r := Fold(p, ip, m, env).1;
        FoldOutcome(Rest(p), after, o.machine, env);
        assert Fold(Rest(p), after, o.machine, env).1 == r && Rest(p).tail == p.tail;
        assert RunsThrough(p, ip, m, env) == RunsThrough(Rest(p), after, o.machine, env);
        if !RunsThrough(p, ip, m, env) {
          var k: nat :| EndsAt(Rest(p), k, r, after, o.machine, env);
          assert EndsAt(p, k + 1, r, ip, m, env);
        }
      }
    }
  }

  /** At most one instruction ends a module, and only when it does not run through. */
  lemma {:induction false} EndsAtMostOnce(p: Program, j: nat, q: VmResult, ip: nat, m: Machine, env: Env)
    requires m.Valid() && EndsAt(p, j, q, ip, m, env)
    ensures !RunsThrough(p, ip, m, env)
    ensures Fold(p, ip, m, env).1 == q
    decreases |p.instrs|
  {
    hide Perform, Ending;
    var after := ip + Size(p.instrs[0]);
    var o := Perform(p.instrs[0], m, after, env);
    PerformEnding(p.instrs[0], m, after, env);
    if j > 0 {
      assert EndsAt(Rest(p), j - 1, q, after, o.machine, env);
      EndsAtMostOnce(Rest(p), j - 1, q, after, o.machine, env);
    }
  }

  /** The three results a run can have, each exactly when its cause is reached. */
  lemma ExactOutcome(p: Program, ip: nat, m: Machine, env: Env)
    requires m.Valid()
    ensures var r := Fold(p, ip, m, env).1;
            && (r == PillOff <==> exists k: nat :: EndsAt(p, k, PillOff, ip, m, env))
            && (r == UnknownOpcode <==>
                  || (RunsThrough(p, ip, m, env) && |p.tail| > 0)
                  || exists k: nat :: EndsAt(p, k, UnknownOpcode, ip, m, env))
            && (r == VmOk <==>
                  (RunsThrough(p, ip, m, env) && |p.tail| == 0) || exists k: nat :: EndsAt(p, k, VmOk, ip, m, env))
  {
    hide Fold, Reached, RunsThrough;
    FoldOutcome(p, ip, m, env);
    forall k: nat, q | EndsAt(p, k, q, ip, m, env)
      ensures Fold(p, ip, m, env).1 == q && !RunsThrough(p, ip, m, env)
    {
      EndsAtMostOnce(p, k, q, ip, m, env);
    }
  }

  /** The same for a whole call of the engine on an admitted, well-signed envelope. */
  lemma AdmittedOutcome(envelope: seq<byte>, env: Env, m: Machine)
    requires m.Valid() && Calm(env) && Admissible(|envelope|) && m.vm.callDepth < MAX_DEPTH
    ensures var code := envelope[SIG_SIZE..];
            var start := Enter(m, |code|).Logged(VmVerifyOk, |code|);
            var p := Decode(code);
            var r := Execute(true, Some(envelope), true, true, env, m).1;
            && (r == PillOff <==> exists k: nat :: EndsAt(p, k, PillOff, 0, start, env))
            && (r == UnknownOpcode <==>
                  || (RunsThrough(p, 0, start, env) && |p.tail| > 0)
                  || exists k: nat :: EndsAt(p, k, UnknownOpcode, 0, start, env))
            && r in {VmOk, PillOff, UnknownOpcode}
  {
    hide Run, Decode, Fold, EndsAt, RunsThrough;
    var code := envelope[SIG_SIZE..];
    var start := Enter(m, |code|).Logged(VmVerifyOk, |code|);
    AdmittedRunIsFold(envelope, start, env);
    ExactOutcome(Decode(code), 0, start, env);
    OneOfThree(Decode(code), 0, start, env);
  }

  lemma OneOfThree(p: Program, ip: nat, m: Machine, env: Env)
    requires m.Valid()
    ensures Fold(p, ip, m, env).1 in {VmOk, PillOff, UnknownOpcode}
  {
    hide Fold, Reached, RunsThrough;
    FoldOutcome(p, ip, m, env);
    if !RunsThrough(p, ip, m, env) {
      var k: nat :| EndsAt(p, k, Fold(p, ip, m, env).1, ip, m, env);
      assert Ending(p.instrs[k], Reached(p, k, ip, m, env).value, env) == Some(Fold(p, ip, m, env).1);
    }
  }

  // ---------- The signature check on its own ----------

  lemma {:induction false} RunOutcome(p: Program, ip: nat, count: nat, m: Machine, env: Env)
    requires m.Valid()
    ensures Run(p, ip, count, m, env).1 in {VmOk, PillOff, UnknownOpcode}
    decreases |p.instrs|
  {
    hide Perform, Ending;
    if |p.instrs| > 0 {
      var after := ip + Size(p.instrs[0]);
      var o := Perform(p.instrs[0], m, after, env);
      PerformEnding(p.instrs[0], m, after, env);
      if o.Running? {
        RunOutcome(Rest(p), after, count + 1, o.machine, env);
      } else {
        EndingOutcome(p.instrs[0], m, env);
      }
    }
  }

  lemma EndingOutcome(i: Instr, m: Machine, env: Env)
    ensures Ending(i, m, env).Some? ==> Ending(i, m, env).value in {VmOk, PillOff, UnknownOpcode}
  {
  }

  /**
   * What checking a module alone says about executing it, with the same answers from lock bit and
   * verifier. It touches nothing but the log, and an execution runs the code exactly when the check
   * passes and the module is within the size limit and the depth limit - neither of which it checks.
   */
  lemma VerifyPredictsExecute(envelope: seq<byte>, locked: bool, verdict: bool, env: Env, m: Machine)
    requires m.Valid()
    ensures var v := Verify(Some(envelope), locked, verdict, m);
            var x := Execute(true, Some(envelope), locked, verdict, env, m);
            var fits := |envelope| <= MAX_MODULE && m.vm.callDepth < MAX_DEPTH;
            && v.0.(log := m.log) == m
            && (x.1 in {VmOk, PillOff, UnknownOpcode} <==> v.1 == VmOk && fits)
            && (x.1 == SigInvalid <==> v.1 == SigInvalid && fits)
            && (x.1 == TooSmall <==> v.1 == TooSmall)
  {
    hide Run, Decode, Leave;
    if |envelope| > SIG_SIZE {
      var code := envelope[SIG_SIZE..];
      RunOutcome(Decode(code), 0, 0, Enter(m, |code|).Logged(VmVerifyOk, |code|), env);
    }
  }

  // ---------- Effects on vault, bunker and depth ----------

  /** How many instructions a run performs, the one that ends it included. */
  function Performed(p: Program, ip: nat, count: nat, m: Machine, env: Env): (n: nat)
    requires m.Valid()
    ensures n <= |p.instrs|
    decreases |p.instrs|
  {
    if |p.instrs| == 0 || Alarm(count, env.watch(count)).Some? then 0
    else
      var after := ip + Size(p.instrs[0]);
      match Perform(p.instrs[0], m, after, env)
      case Running(m') => 1 + Performed(Rest(p), after, count + 1, m', env)
      case Stopped(_, _) => 1
  }

  function CountStores(instrs: seq<Instr>): nat
    decreases |instrs|
  {
    if |instrs| == 0 then 0 else (if instrs[0].VfsStore? then 1 else 0) + CountStores(instrs[1..])
  }

  /** The vault after performing `instrs`: one store per VFS_STORE, and wiped if a REFLEX_ACTION is among them. */
  function VaultAfter(v: VaultState, instrs: seq<Instr>): VaultState
    requires v.Valid()
  {
    var stored := v.(wear := Stores(v.wear, CountStores(instrs)));
    if ReflexAction in instrs then stored.Wiped() else stored
  }

  function BunkerAfter(b: BunkerState, instrs: seq<Instr>): BunkerState {
    if IdentityGen in instrs then b.Exited() else b
  }

  lemma {:induction false} StoresCompose(w: Wear, a: nat, b: nat)
    requires w.Valid()
    ensures Stores(Stores(w, a), b) == Stores(w, a + b)
    decreases b
  {
    hide Store;
    if b > 0 {
      StoresCompose(w, a, b - 1);
    }
  }

  lemma StoreGeneration(w: Wear)
    requires w.Valid()
    ensures Store(w).generation == (w.generation + 1) % WRAP
  {
  }

  lemma {:induction false} GenerationAfter(w: Wear, n: nat)
    requires w.Valid()
    ensures Stores(w, n).generation == (w.generation + n) % WRAP
    decreases n
  {
    hide Store;
    if n > 0 {
      GenerationAfter(w, n - 1);
      StoreGeneration(Stores(w, n - 1));
      WrapStep(w.generation, n);
    }
  }

  lemma WrapStep(g: nat, n: nat)
    requires n > 0
    ensures ((g + n - 1) % WRAP + 1) % WRAP == (g + n) % WRAP
  {
  }

  lemma OneInstr(i: Instr)
    ensures CountStores([i]) == if i.VfsStore? then 1 else 0
    ensures forall j :: j in [i] <==> j == i
  {
    assert [i][1..] == [];
  }

  lemma EffectOfOne(i: Instr, m: Machine, ip: nat, env: Env)
    requires m.Valid()
    ensures var m' := Perform(i, m, ip, env).machine;
            && m'.vault == VaultAfter(m.vault, [i])
            && m'.bunker == BunkerAfter(m.bunker, [i])
            && m'.vm.callDepth == m.vm.callDepth
            && m'.vm.inBunker == (m.vm.inBunker && i != IdentityGen)
            && m.log <= m'.log
  {
    hide Store, CountStores;
    OneInstr(i);
    assert Stores(m.vault.wear, 1) == Store(Stores(m.vault.wear, 0));
    match i
    case LumeVoice =>
    case _ =>
  }

  lemma VaultAfterCons(v: VaultState, i: Instr, rest: seq<Instr>)
    requires v.Valid() && i != ReflexAction
    ensures VaultAfter(v, [i]).Valid()
    ensures VaultAfter(VaultAfter(v, [i]), rest) == VaultAfter(v, [i] + rest)
  {
    hide Stores;
    OneInstr(i);
    assert ([i] + rest)[1..] == rest;
    StoresCompose(v.wear, CountStores([i]), CountStores(rest));
    assert ReflexAction in [i] + rest <==> ReflexAction in rest;
  }

  /** What a run leaves behind is determined by the instructions it performed, alarms or not. */
  lemma {:induction false} RunEffect(p: Program, ip: nat, count: nat, m: Machine, env: Env)
    requires m.Valid()
    ensures var m' := Run(p, ip, count, m, env).0;
            var done := p.instrs[..Performed(p, ip, count, m, env)];
            && m'.vault == VaultAfter(m.vault, done)
            && m'.bunker == BunkerAfter(m.bunker, done)
            && m'.vm.callDepth == m.vm.callDepth
            && m'.vm.inBunker == (m.vm.inBunker && IdentityGen !in done)
            && m.log <= m'.log
    decreases |p.instrs|
  {
    hide Perform, VaultAfter, BunkerAfter;
    NoEffect(m);
    if |p.instrs| > 0 && Alarm(count, env.watch(count)).None? {
      var i := p.instrs[0];
      var after := ip + Size(i);
      var o := Perform(i, m, after, env);
      var n := Performed(p, ip, count, m, env);
      EffectOfOne(i, m, after, env);
      if o.Running? {
        RunEffect(Rest(p), after, count + 1, o.machine, env);
        ReflexStops(i, m, after, env);
        var rest := p.instrs[1..][..n - 1];
        assert p.instrs[..n] == [i] + rest;
        VaultAfterCons(m.vault, i, rest);
        BunkerAfterCons(m.bunker, i, rest);
      } else {
        assert p.instrs[..n] == [i];
      }
    }
  }

  lemma NoEffect(m: Machine)
    requires m.Valid()
    ensures VaultAfter(m.vault, []) == m.vault && BunkerAfter(m.bunker, []) == m.bunker
  {
  }

  lemma BunkerAfterCons(b: BunkerState, i: Instr, rest: seq<Instr>)
    ensures BunkerAfter(BunkerAfter(b, [i]), rest) == BunkerAfter(b, [i] + rest)
  {
    assert IdentityGen in [i] + rest <==> i == IdentityGen || IdentityGen in rest;
  }

  lemma ReflexStops(i: Instr, m: Machine, ip: nat, env: Env)
    requires m.Valid() && Perform(i, m, ip, env).Running?
    ensures i != ReflexAction
  {
  }

  /** The instructions an execution performs; none unless the envelope is admitted and its signature good. */
  function ExecutedInstrs(named: bool, envelope: Option<seq<byte>>, locked: bool, verdict: bool, env: Env, m: Machine)
    : seq<Instr>
    requires m.Valid()
  {
    if envelope.Some? && named && Admissible(|envelope.value|) && m.vm.callDepth < MAX_DEPTH && locked && verdict then
      var code := envelope.value[SIG_SIZE..];
      var p := Decode(code);
      p.instrs[..Performed(p, 0, 0, Enter(m, |code|).Logged(VmVerifyOk, |code|), env)]
    else []
  }

  /** An execution's whole effect outside the log and the voice clock, on every path through it. */
  lemma ExecuteEffect(named: bool, envelope: Option<seq<byte>>, locked: bool, verdict: bool, env: Env, m: Machine)
    requires m.Valid()
    ensures var m' := Execute(named, envelope, locked, verdict, env, m).0;
            var done := ExecutedInstrs(named, envelope, locked, verdict, env, m);
            && m'.vault == VaultAfter(m.vault, done)
            && (!m.vm.inBunker ==> m'.bunker == BunkerAfter(m.bunker, done) && !m'.vm.inBunker)
            && m'.vm.callDepth == m.vm.callDepth
            && m.log <= m'.log
  {
    hide Run, Decode, VaultAfter, BunkerAfter, Performed;
    NoEffect(m);
    if envelope.Some? && named && Admissible(|envelope.value|) && m.vm.callDepth < MAX_DEPTH && locked && verdict {
      var code := envelope.value[SIG_SIZE..];
      RunEffect(Decode(code), 0, 0, Enter(m, |code|).Logged(VmVerifyOk, |code|), env);
    }
  }
}
