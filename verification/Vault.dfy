/** The key vault: the RAM copy of the Sentinel public key, and the wear-levelled store's context. */
module VaultStore {
  import opened Bytes
  import opened Audit
  import opened WearLevelling

  const MPK_SIZE: nat := 1312

  /** The module's static state as a value. */
  datatype VaultState = VaultState(wear: Wear, mpk: seq<byte>, ready: bool, initialized: bool) {
    predicate Valid() {
      wear.Valid() && |mpk| == MPK_SIZE
    }

    function Wiped(): VaultState {
      this.(mpk := Zeros(MPK_SIZE), ready := false)
    }

    function Loaded(flash: seq<byte>): VaultState {
      this.(mpk := flash, ready := true, initialized := true)
    }

    predicate IsWiped() {
      mpk == Zeros(MPK_SIZE) && !ready
    }
  }

  const UNPROVISIONED: VaultState := VaultState(FRESH, Zeros(MPK_SIZE), false, false)

  class Vault {
    const log: Log
    var generation: uint32
    var activeSector: Sector
    const counts: array<uint32>
    const mpk: array<byte>
    var ready: bool
    var initialized: bool

    ghost predicate Valid() {
      counts.Length == SECTORS && mpk.Length == MPK_SIZE
    }

    ghost function WearState(): Wear
      reads this, counts
    {
      Wear(generation, activeSector, counts[..])
    }

    ghost function State(): VaultState
      reads this, counts, mpk
    {
      VaultState(WearState(), mpk[..], ready, initialized)
    }

    constructor (log: Log)
      ensures Valid() && fresh(counts) && fresh(mpk)
      ensures this.log == log && State() == UNPROVISIONED
    {
      this.log := log;
      generation, activeSector := 0, 0;
      counts := new uint32[SECTORS](_ => 0);
      mpk := new byte[MPK_SIZE](_ => 0);
      ready, initialized := false, false;
    }

    /** Scan for the first least-erased sector, then advance the generation and that sector's count. */
    method VfsStore(objectId: uint16)
      requires Valid()
      modifies this`generation, this`activeSector, counts, log
      ensures WearState() == Store(old(WearState()))
      ensures log.entries == old(log.entries) + [Entry(VmBusPub, objectId)]
    {
      ghost var before := counts[..];
      var target: Sector := 0;
      var minErase := counts[0];
      for i := 1 to SECTORS
        invariant target == Scan(before, i) && minErase == before[target] && counts[..] == before
      {
        assert counts[i] == before[i];
        if counts[i] < minErase {
          minErase := counts[i];
          target := i;
        }
      }
      generation := Incremented(generation);
      activeSector := target;
      counts[target] := Incremented(counts[target]);
      log.Add(VmBusPub, objectId);
    }

    /** Decryption is a plain copy of the provisioned key from flash. */
    method Init(locked: bool, flash: seq<byte>) returns (ok: bool)
      requires Valid() && |flash| == MPK_SIZE
      modifies this`ready, this`initialized, mpk, log
      ensures ok == locked
      ensures State() == if locked then old(State()).Loaded(flash) else old(State())
      ensures locked ==> mpk[..] == flash && ready && initialized
      ensures !locked ==> mpk[..] == old(mpk[..]) && ready == old(ready) && initialized == old(initialized)
      ensures log.entries == old(log.entries) + [if locked then Entry(VmVerifyOk, 0x1312) else Entry(TamperVault, 0)]
    {
      if !locked {
        log.Add(TamperVault, 0);
        return false;
      }
      for i := 0 to MPK_SIZE
        modifies mpk
        invariant mpk[..i] == flash[..i]
      {
        mpk[i] := flash[i];
      }
      assert mpk[..] == flash;
      ready, initialized := true, true;
      log.Add(VmVerifyOk, 0x1312);
      return true;
    }

    method EmergencyWipe()
      requires Valid()
      modifies this`ready, mpk, log
      ensures State() == old(State()).Wiped()
      ensures mpk[..] == Zeros(1312) && !ready
      ensures log.entries == old(log.entries) + [Entry(TamperVault, 0xFFFF_FFFF)]
    {
      for i := 0 to MPK_SIZE
        modifies mpk
        invariant forall k :: 0 <= k < i ==> mpk[k] == 0
      {
        mpk[i] := 0;
      }
      assert mpk[..] == Zeros(MPK_SIZE);
      ready := false;
      log.Add(TamperVault, 0xFFFF_FFFF);
    }

    /** Hands out the key only while it is ready and the buffer is large enough. */
    method GetSentinelMpk(len: nat) returns (key: Option<seq<byte>>)
      requires Valid()
      ensures key == if ready && len >= 1312 then Some(mpk[..]) else None
    {
      if !ready || len < MPK_SIZE { return None; }
      return Some(mpk[..]);
    }
  }
}
