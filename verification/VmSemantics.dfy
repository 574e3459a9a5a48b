/** What a module means: a fold over its decoded instructions, with every exit the engine has. */
module VmSemantics {
  import opened Bytes
  import opened Audit
  import opened ACode
  import opened WearLevelling
  import opened VaultStore
  import opened BunkerStore

  const SIG_SIZE: nat := 2420
  const MAX_MODULE: nat := 65536
  const MAX_DEPTH: nat := 16
  const MAX_INSTRUCTIONS: nat := 1_000_000
  const VOICE_GAP: nat := 10000

  datatype VmResult =
    | VmOk | NullInput | TooSmall | TooLarge | SigInvalid | UnknownOpcode | StackOverflow | PillOff

  /** What the watchdogs see in one iteration of the loop. */
  datatype Watch = Quiet | GuardSmashed | Probed

  /**
   * The surroundings of an execution. `clock(k)` is the true time at the k-th reading of the tick
   * counter, which itself only shows that time modulo 2^32.
   */
  datatype Env = Env(strict: bool, clock: nat -> nat, watch: nat -> Watch)

  /** `readings` counts tick readings and `voices` the true times of accepted voices; no code reads them. */
  datatype VmState = VmState(inBunker: bool, callDepth: uint32, lastVoice: uint32, readings: nat, voices: seq<nat>)

  datatype Machine = Machine(vm: VmState, vault: VaultState, bunker: BunkerState, log: seq<Entry>) {
    predicate Valid() {
      vault.Valid() && bunker.Valid()
    }

    function Logged(event: Event, data: nat): Machine {
      this.(log := log + [Entry(event, data)])
    }
  }

  const POWER_ON: VmState := VmState(false, 0, 0, 0, [])

  function Decremented(x: uint32): uint32 {
    if x == 0 then 0xFFFF_FFFF else x - 1
  }

  /** Elapsed ticks as unsigned 32-bit subtraction gives them. */
  function TicksSince(now: uint32, last: uint32): uint32 {
    (now - last) % WRAP
  }

  /** Zero stands for "no voice yet". */
  predicate TooEarly(last: uint32, now: uint32) {
    last != 0 && TicksSince(now, last) < VOICE_GAP
  }

  function Tick(m: Machine, env: Env): uint32 {
    env.clock(m.vm.readings) % WRAP
  }

  function Reflex(m: Machine, reason: nat): Machine {
    m.Logged(VmReflex, reason).Logged(PillOffTriggered, TAMPER_CODE)
  }

  /** The watchdogs of iteration number `count`, in the order they are looked at. */
  function Alarm(count: nat, watch: Watch): Option<nat> {
    if watch == GuardSmashed then Some(0x04)
    else if count + 1 > MAX_INSTRUCTIONS then Some(0x01)
    else if watch == Probed then Some(0x02)
    else None
  }

  datatype Outcome = Running(machine: Machine) | Stopped(machine: Machine, result: VmResult)

  /** One instruction; `ip` is the position after it. */
  function Perform(i: Instr, m: Machine, ip: nat, env: Env): (o: Outcome)
    requires m.Valid()
    ensures o.machine.Valid()
  {
    match i
    case InitMod => Running(m.Logged(VmOpInit, 0))
    case IdentityGen =>
      Running(m.(bunker := m.bunker.Exited(), vm := m.vm.(inBunker := false)).Logged(VmIdentityRegen, 0))
    case VfsStore(id) =>
      Running(m.(vault := m.vault.(wear := Store(m.vault.wear))).Logged(VmBusPub, id))
    case VfsFetch(_) => Running(m)
    case BusPub => Running(m.Logged(VmBusPub, 0))
    case ExtMount(slot) => Running(m.Logged(VmExtMount, slot as nat))
    case ReflexAction =>
      Stopped(m.(vault := m.vault.Wiped()).Logged(TamperVault, 0xFFFF_FFFF), PillOff)
    case LumeVoice => Speak(m, env)
    case Halt => Stopped(m.Logged(VmHalt, ip), VmOk)
    case Unknown(op) =>
      var m' := m.Logged(VmUnknownOp, op as nat);
      if env.strict then Stopped(m', UnknownOpcode) else Running(m')
  }

  /** A voice pulse: refused, with a reflex, when the last accepted one is too recent. */
  function Speak(m: Machine, env: Env): (o: Outcome)
    requires m.Valid()
    ensures o.machine.Valid()
  {
    var now := Tick(m, env);
    var heard := m.(vm := m.vm.(readings := m.vm.readings + 1));
    if TooEarly(m.vm.lastVoice, now) then Stopped(Reflex(heard, 0x05), PillOff)
    else
      var voices := m.vm.voices + [env.clock(m.vm.readings)];
      Running(heard.(vm := heard.vm.(lastVoice := now, voices := voices)).Logged(VmLumeVoice, 0))
  }

  /** A whole module from position `ip` on, `count` iterations having been made. */
  function Run(p: Program, ip: nat, count: nat, m: Machine, env: Env): (o: (Machine, VmResult))
    requires m.Valid()
    ensures o.0.Valid()
    decreases |p.instrs|
  {
    if |p.instrs| == 0 && |p.tail| == 0 then (m, VmOk)
    else
      match Alarm(count, env.watch(count))
      case Some(reason) => (Reflex(m, reason), PillOff)
      case None =>
        if |p.instrs| == 0 then (m, UnknownOpcode)
        else
          var after := ip + Size(p.instrs[0]);
          match Perform(p.instrs[0], m, after, env)
          case Running(m') => Run(Program(p.instrs[1..], p.tail), after, count + 1, m', env)
          case Stopped(m', result) => (m', result)
  }

  /** The engine's single exit: leave the bunker if still in it, and give the call depth back. */
  function Leave(m: Machine): (m': Machine)
    requires m.Valid()
    ensures m'.Valid()
  {
    var bunker := if m.vm.inBunker then m.bunker.Exited() else m.bunker;
    m.(bunker := bunker, vm := m.vm.(inBunker := false, callDepth := Decremented(m.vm.callDepth)))
  }

  /** Is the envelope of an admissible shape? */
  predicate Admissible(size: nat) {
    size % 32 == 0 && SIG_SIZE < size <= MAX_MODULE
  }

  /** The signature step: the events before any opcode runs. */
  function Enter(m: Machine, codeSize: nat): Machine {
    m.(vm := m.vm.(callDepth := (m.vm.callDepth + 1) % WRAP)).Logged(VmVerifyStart, codeSize)
  }

  function Refuse(m: Machine, locked: bool): Machine {
    var m' := if locked then m else m.Logged(TamperVault, 0);
    var m'' := m'.Logged(VmSigFail, 0).Logged(PillOffTriggered, TAMPER_CODE);
    m''.(vm := m''.vm.(callDepth := Decremented(m''.vm.callDepth)))
  }

  /** rcf_vm_execute: `locked` and `verdict` are what the lock bit and the signature check answer. */
  function Execute(named: bool, envelope: Option<seq<byte>>, locked: bool, verdict: bool, env: Env, m: Machine)
    : (o: (Machine, VmResult))
    requires m.Valid()
    ensures o.0.Valid()
  {
    if envelope == None || !named then (m, NullInput)
    else
      var size := |envelope.value|;
      if size % 32 != 0 then (m.Logged(VmMisaligned, size), TooSmall)
      else if size <= SIG_SIZE then (m, TooSmall)
      else if size > MAX_MODULE then (m, TooLarge)
      else if m.vm.callDepth >= MAX_DEPTH then (m, StackOverflow)
      else
        RunSigned(envelope.value[SIG_SIZE..], locked, verdict, env, m)
  }

  /** From the signature check on. */
  function RunSigned(code: seq<byte>, locked: bool, verdict: bool, env: Env, m: Machine): (o: (Machine, VmResult))
    requires m.Valid()
    ensures o.0.Valid()
  {
    var m1 := Enter(m, |code|);
    if !locked || !verdict then (Refuse(m1, locked), SigInvalid)
    else
      var (m2, result) := Run(Decode(code), 0, 0, m1.Logged(VmVerifyOk, |code|), env);
      (Leave(m2), result)
  }

  /** rcf_vm_verify: the signature check alone; only the lock event can be logged. */
  function Verify(envelope: Option<seq<byte>>, locked: bool, verdict: bool, m: Machine): (Machine, VmResult) {
    if envelope == None || |envelope.value| % 32 != 0 || |envelope.value| <= SIG_SIZE then (m, TooSmall)
    else if !locked then (m.Logged(TamperVault, 0), SigInvalid)
    else (m, if verdict then VmOk else SigInvalid)
  }

  /** rcf_vm_emergency_reset, between executions. */
  function EmergencyReset(m: Machine): Machine {
    var bunker := if m.vm.inBunker then m.bunker.Exited() else m.bunker;
    m.(bunker := bunker, vm := m.vm.(inBunker := false, callDepth := 0)).Logged(VmEmergencyReset, 0)
  }
}
