/** The timechain module in place: slots in backup memory, written one byte at a time. */
module TimechainDevice {
  import opened Bytes
  import opened Audit
  import opened Timechain

  class Device {
    const log: Log
    const sha: Hash
    const current: array<byte>
    const previous: array<byte>
    const genesis: array<byte>
    var valid: bool
    var lsi: uint32

    ghost predicate Valid() {
      && current.Length == previous.Length == genesis.Length == ENTRY_SIZE
      && current != previous && current != genesis && previous != genesis
    }

    ghost function SlotsState(): Slots
      requires Valid()
      reads current, previous, genesis
    {
      Slots(current[..], previous[..], genesis[..])
    }

    ghost function State(): TcState
      requires Valid()
      reads this, current, previous, genesis, log
    {
      TcState(SlotsState(), valid, lsi, log.entries)
    }

    /** Zeroed backup memory, as before provisioning. */
    constructor (log: Log, sha: Hash)
      ensures Valid() && fresh(current) && fresh(previous) && fresh(genesis) && this.log == log && this.sha == sha
      ensures State() == TcState(Slots(Zeros(128), Zeros(128), Zeros(128)), false, NOMINAL_LSI, log.entries)
    {
      this.log, this.sha := log, sha;
      current := new byte[ENTRY_SIZE](_ => 0);
      previous := new byte[ENTRY_SIZE](_ => 0);
      genesis := new byte[ENTRY_SIZE](_ => 0);
      valid, lsi := false, NOMINAL_LSI;
    }

    method EntryExists(e: array<byte>) returns (found: bool)
      requires e.Length == ENTRY_SIZE
      ensures found == Exists(e[..])
    {
      for i := 0 to HASH_LEN
        invariant forall k :: 0 <= k < i ==> SelfHash(e[..])[k] == 0
      {
        if e[SELF_AT + i] != 0 {
          assert SelfHash(e[..])[i] != Zeros(HASH_LEN)[i];
          return true;
        }
      }
      assert SelfHash(e[..]) == Zeros(HASH_LEN);
      return false;
    }

    method VerifySelfHash(e: array<byte>) returns (ok: bool)
      requires e.Length == ENTRY_SIZE
      ensures ok == Verified(sha, e[..])
    {
      var computed := sha(e[..SELF_AT]);
      assert e[..SELF_AT] == e[..][..SELF_AT] && e[SELF_AT..SELF_END] == e[..][SELF_AT..SELF_END];
      return computed == e[SELF_AT..SELF_END];
    }

    method LinkBroken() returns (broken: bool)
      requires Valid()
      ensures broken == (PrevHash(current[..]) != SelfHash(previous[..]))
    {
      assert current[PREV_AT..SELF_AT] == PrevHash(current[..]);
      assert previous[SELF_AT..SELF_END] == SelfHash(previous[..]);
      return current[PREV_AT..SELF_AT] != previous[SELF_AT..SELF_END];
    }

    method Alarm()
      requires Valid()
      modifies log
      ensures State() == old(State()).Alarmed()
    {
      log.Add(PillOffTriggered, TAMPER_TIME);
    }

    method Initialize(rtcRunning: bool) returns (error: TcError)
      requires Valid()
      modifies this`valid, log
      ensures (State(), error) == Init(sha, old(State()), rtcRunning)
    {
      hide Exists, Verified;
      if rtcRunning {
        var here := EntryExists(current);
        if here {
          var good := VerifySelfHash(current);
          if !good {
            Alarm();
            return HashMismatch;
          }
          var linked := EntryExists(previous);
          if linked {
            var broken := LinkBroken();
            if broken {
              Alarm();
              return ChainBroken;
            }
          }
          valid := true;
          return TcOk;
        } else {
          var factory := EntryExists(genesis);
          if factory {
            Alarm();
            return Rollback;
          }
          return NeedsProvision;
        }
      } else {
        var factory := EntryExists(genesis);
        if !factory { return NeedsProvision; }
        Alarm();
        return Rollback;
      }
    }

    method FillEntropy(words: RngWords) returns (pool: Option<seq<byte>>)
      ensures pool == EntropyOf(words)
    {
      var bytes := [];
      for i := 0 to 4
        invariant Gathered(words[..i]) == Some(bytes)
      {
        assert words[..i + 1][..i] == words[..i];
        if words[i].None? {
          assert words[i] == words[..i + 1][i];
          return None;
        }
        bytes := bytes + LE(words[i].value, 4);
      }
      assert words[..4] == words;
      return Some(bytes);
    }

    /** memcpy of a whole slot as ascending byte writes, while power for `budget` of them lasts. */
    method CopySlot(dst: array<byte>, src: seq<byte>, budget: nat) returns (left: nat)
      requires dst.Length == ENTRY_SIZE == |src|
      modifies dst
      ensures var n := if budget < ENTRY_SIZE then budget else ENTRY_SIZE;
              left == budget - n && dst[..] == src[..n] + old(dst[..])[n..]
    {
      left := budget;
      var i := 0;
      while i < ENTRY_SIZE && left > 0
        invariant i <= ENTRY_SIZE && left == budget - i
        invariant forall j :: 0 <= j < i ==> dst[j] == src[j]
        invariant forall j :: i <= j < ENTRY_SIZE ==> dst[j] == old(dst[j])
      {
        dst[i] := src[i];
        left := left - 1;
        i := i + 1;
      }
    }

    method DetectRollback(reading: uint64) returns (far: bool)
      requires Valid()
      modifies log
      ensures far <==> valid && reading + 5 < Timestamp(current[..])
      ensures far ==>
                var behind := Timestamp(current[..]) - reading;
                log.entries == old(log.entries) + [Entry(TimeRollback, behind % 0x1_0000_0000)]
      ensures !far ==> log.entries == old(log.entries)
    {
      if !valid { return false; }
      var now := Timestamp(current[..]);
      if reading >= now { return false; }
      var delta := now - reading;
      if delta > MAX_BACKWARD {
        log.Add(TimeRollback, delta % WRAP);
        return true;
      }
      return false;
    }

    /** Current over previous, then the new entry over current: two copies that power loss can cut anywhere. */
    method ShiftSlots(e: Slot, power: nat)
      requires Valid()
      modifies current, previous
      ensures SlotsState() == Torn(old(SlotsState()), e, if power < 2 * ENTRY_SIZE then power else 2 * ENTRY_SIZE)
    {
      var left := CopySlot(previous, current[..], power);
      left := CopySlot(current, e, left);
    }

    /** Reset: the module's static state starts over, the slots stay. */
    method Restart()
      requires Valid()
      modifies this
      ensures State() == Reset(old(State()))
      ensures !valid && lsi == 32000
    {
      valid, lsi := false, NOMINAL_LSI;
    }

    /** The update, with power for `power` byte writes to the slots; None is a power loss. */
    method UpdateChain(x: Sample, power: nat) returns (error: Option<TcError>)
      requires Valid()
      modifies current, previous, log
      ensures (State(), error) == Update(sha, old(State()), x, power)
    {
      hide Image, Gathered, Load64, Load32, Torn;
      if !valid { return Some(NotInitialized); }
      var stored := current[..];
      var stamp := x.reading;
      if stamp < Timestamp(stored) {
        var far := DetectRollback(stamp);
        if far {
          Alarm();
          return Some(Rollback);
        }
        stamp := Timestamp(stored);
      }
      var pool := FillEntropy(x.words);
      if pool.None? { return Some(RngFail); }
      var f := Fields(stamp, (Counter(stored) + 1) % WRAP, x.tick % 0x1_0000, x.temperature,
                      x.voltage % 0x1_0000, PowerCycles(stored), lsi, pool.value);
      var body := Image(f, SelfHash(stored));
      var e := body + sha(body) + Zeros(16);
      assert e == NextEntry(sha, old(State()), x);
      ShiftSlots(e, power);
      if power < 2 * ENTRY_SIZE { return None; }
      return Some(TcOk);
    }

    /** The new entry over genesis, then over current: two copies that power loss can cut anywhere. */
    method WriteGenesis(g: Slot, power: nat)
      requires Valid()
      modifies genesis, current
      ensures var k := if power < 2 * ENTRY_SIZE then power else 2 * ENTRY_SIZE;
              SlotsState() == TornGenesis(old(SlotsState()), g, k)
    {
      var left := CopySlot(genesis, g, power);
      left := CopySlot(current, g, left);
    }

    /** Provisioning, with power for `power` byte writes to the slots; None is a power loss. */
    method CreateGenesis(factory: uint64, powerCycles: uint32, words: RngWords, power: nat)
      returns (error: Option<TcError>)
      requires Valid()
      modifies this`valid, genesis, current
      ensures (State(), error) == Genesis(sha, old(State()), factory, powerCycles, words, power)
    {
      hide Image, Gathered, Exists, TornGenesis;
      var written := EntryExists(genesis);
      if written { return Some(HashMismatch); }
      var pool := FillEntropy(words);
      if pool.None? { return Some(RngFail); }
      var body := Image(Fields(factory, 0, 0, 0, 0, powerCycles, NOMINAL_LSI, pool.value), Zeros(HASH_LEN));
      var g := body + sha(body) + Zeros(16);
      assert g == GenesisEntry(sha, factory, powerCycles, pool.value);
      WriteGenesis(g, power);
      if power < 2 * ENTRY_SIZE { return None; }
      valid := true;
      return Some(TcOk);
    }

    method CheckChain() returns (error: TcError)
      requires Valid()
      ensures error == VerifyChain(sha, SlotsState())
    {
      hide Exists, Verified;
      var here := EntryExists(current);
      if !here { return NotInitialized; }
      var good := VerifySelfHash(current);
      if !good { return HashMismatch; }
      var linked := EntryExists(previous);
      if linked {
        var broken := LinkBroken();
        if broken { return ChainBroken; }
        good := VerifySelfHash(previous);
        if !good { return HashMismatch; }
      }
      return TcOk;
    }
  }
}
