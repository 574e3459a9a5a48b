/**
 * The timechain: two slots over an unbounded hash chain, and a genesis slot, as byte images in
 * battery-backed memory. SHA-256 is an arbitrary function from byte strings to digests.
 */
module Timechain {
  import opened Bytes
  import opened Audit

  const ENTRY_SIZE: nat := 128
  const HASH_LEN: nat := 32
  const PREV_AT: nat := 48
  const SELF_AT: nat := 80
  const SELF_END: nat := 112
  const NOMINAL_LSI: uint32 := 32000
  const MAX_BACKWARD: nat := 5

  type Digest = d: seq<byte> | |d| == 32 witness Zeros(32)
  type Slot = s: seq<byte> | |s| == 128 witness Zeros(128)
  type Entropy = s: seq<byte> | |s| == 16 witness Zeros(16)
  type Hash = seq<byte> -> Digest

  datatype TcError = TcOk | NotInitialized | HashMismatch | ChainBroken | Rollback | RngFail | NeedsProvision

  // ---------- Entry layout ----------

  function Hashed(e: Slot): (s: seq<byte>)
    ensures |s| == SELF_AT
  {
    e[..SELF_AT]
  }

  function PrevHash(e: Slot): Digest {
    e[PREV_AT..SELF_AT]
  }

  function SelfHash(e: Slot): Digest {
    e[SELF_AT..SELF_END]
  }

  function Load64(s: seq<byte>): uint64
    requires |s| == 8
  {
    FromLEBound(s);
    FieldWidths();
    FromLE(s)
  }

  function Timestamp(e: Slot): uint64 {
    Load64(e[0..8])
  }

  function Counter(e: Slot): uint32 {
    Load32(e[8..12])
  }

  function PowerCycles(e: Slot): uint32 {
    Load32(e[20..24])
  }

  /** The fields that are set before an entry is sealed; the others stay zero. */
  datatype Fields = Fields(timestamp: uint64, counter: uint32, subsecond: uint16, temperature: uint16,
                           voltage: uint16, powerCycles: uint32, lsi: uint32, entropy: Entropy)

  function Image(f: Fields, prevHash: Digest): (s: seq<byte>)
    ensures |s| == SELF_AT
  {
    LE(f.timestamp, 8) + LE(f.counter, 4) + LE(f.subsecond, 2) + LE(f.temperature, 2) + LE(f.voltage, 2)
      + Zeros(2) + LE(f.powerCycles, 4) + LE(f.lsi, 4) + Zeros(4) + f.entropy + prevHash
  }

  function Sealed(sha: Hash, body: seq<byte>): Slot
    requires |body| == SELF_AT
  {
    body + sha(body) + Zeros(16)
  }

  /** The slot's hash field has been written. */
  predicate Exists(e: Slot) {
    SelfHash(e) != Zeros(HASH_LEN)
  }

  predicate Verified(sha: Hash, e: Slot) {
    sha(Hashed(e)) == SelfHash(e)
  }

  // ---------- State ----------

  datatype Slots = Slots(current: Slot, previous: Slot, genesis: Slot)

  datatype TcState = TcState(slots: Slots, valid: bool, lsi: uint32, log: seq<Entry>) {
    function Logged(event: Event, data: nat): TcState {
      this.(log := log + [Entry(event, data)])
    }

    function Alarmed(): TcState {
      Logged(PillOffTriggered, TAMPER_TIME)
    }
  }

  /** Four draws from the random generator, each of which can fail. */
  type RngWords = w: seq<Option<uint32>> | |w| == 4 witness [None, None, None, None]

  /** The pool that the draws fill, if none of the first `|w|` fails. */
  function Gathered(w: seq<Option<uint32>>): (pool: Option<seq<byte>>)
    ensures pool.Some? ==> |pool.value| == 4 * |w|
    ensures pool.Some? <==> forall i :: 0 <= i < |w| ==> w[i].Some?
    decreases |w|
  {
    if |w| == 0 then Some([])
    else
      var n := |w| - 1;
      var pool := Gathered(w[..n]);
      assert forall i :: 0 <= i < n ==> w[..n][i] == w[i];
      if pool.None? || w[n].None? then None else Some(pool.value + LE(w[n].value, 4))
  }

  function EntropyOf(w: RngWords): Option<Entropy> {
    Gathered(w)
  }

  /** What clock, sensors and random generator give to one update. */
  datatype Sample = Sample(reading: uint64, tick: uint32, temperature: uint16, voltage: uint32, words: RngWords)

  predicate LinkHolds(s: Slots) {
    Exists(s.previous) ==> PrevHash(s.current) == SelfHash(s.previous)
  }

  function Init(sha: Hash, s: TcState, rtcRunning: bool): (TcState, TcError) {
    if rtcRunning then
      if Exists(s.slots.current) then
        if !Verified(sha, s.slots.current) then (s.Alarmed(), HashMismatch)
        else if !LinkHolds(s.slots) then (s.Alarmed(), ChainBroken)
        else (s.(valid := true), TcOk)
      else if Exists(s.slots.genesis) then (s.Alarmed(), Rollback)
      else (s, NeedsProvision)
    else if !Exists(s.slots.genesis) then (s, NeedsProvision)
    else (s.Alarmed(), Rollback)
  }

  /** The reading is more than the tolerated five seconds behind the stored time. */
  predicate TooFarBack(s: TcState, reading: uint64) {
    s.valid && reading < Timestamp(s.slots.current) && Timestamp(s.slots.current) - reading > MAX_BACKWARD
  }

  function RollbackLogged(s: TcState, reading: uint64): TcState
    requires TooFarBack(s, reading)
  {
    s.Logged(TimeRollback, (Timestamp(s.slots.current) - reading) % WRAP)
  }

  function Later(a: uint64, b: uint64): uint64 {
    if a < b then b else a
  }

  function NextFields(s: TcState, x: Sample, entropy: Entropy): Fields {
    var c := s.slots.current;
    Fields(Later(Timestamp(c), x.reading), (Counter(c) + 1) % WRAP, x.tick % 0x1_0000,
           x.temperature, x.voltage % 0x1_0000, PowerCycles(c), s.lsi, entropy)
  }

  /** The entry that an accepted update writes. */
  function NextEntry(sha: Hash, s: TcState, x: Sample): Slot
    requires EntropyOf(x.words).Some?
  {
    Sealed(sha, Image(NextFields(s, x, EntropyOf(x.words).value), SelfHash(s.slots.current)))
  }

  /** Will the update get as far as writing the slots? */
  predicate Accepts(s: TcState, x: Sample) {
    s.valid && !TooFarBack(s, x.reading) && EntropyOf(x.words).Some?
  }

  /**
   * The slots after `k` of the update's 256 ascending byte writes: first current over previous,
   * then the new entry over current.
   */
  function Torn(s: Slots, e: Slot, k: nat): Slots
    requires k <= 2 * ENTRY_SIZE
  {
    if k <= ENTRY_SIZE then s.(previous := s.current[..k] + s.previous[k..])
    else
      var j := k - ENTRY_SIZE;
      s.(previous := s.current, current := e[..j] + s.current[j..])
  }

  /** timechain_update, with power for `k` byte writes to the slots; None is a power loss. */
  function Update(sha: Hash, s: TcState, x: Sample, k: nat): (TcState, Option<TcError>) {
    if !s.valid then (s, Some(NotInitialized))
    else if TooFarBack(s, x.reading) then (RollbackLogged(s, x.reading).Alarmed(), Some(Rollback))
    else if EntropyOf(x.words).None? then (s, Some(RngFail))
    else
      var e := NextEntry(sha, s, x);
      if k < 2 * ENTRY_SIZE then (s.(slots := Torn(s.slots, e, k)), None)
      else (s.(slots := Torn(s.slots, e, 2 * ENTRY_SIZE)), Some(TcOk))
  }

  /** The slots after `k` of provisioning's 256 ascending byte writes: the entry to genesis, then to current. */
  function TornGenesis(s: Slots, g: Slot, k: nat): Slots
    requires k <= 2 * ENTRY_SIZE
  {
    if k <= ENTRY_SIZE then s.(genesis := g[..k] + s.genesis[k..])
    else
      var j := k - ENTRY_SIZE;
      s.(genesis := g, current := g[..j] + s.current[j..])
  }

  /** timechain_create_genesis, with power for `k` byte writes to the slots; None is a power loss. */
  function Genesis(sha: Hash, s: TcState, factory: uint64, powerCycles: uint32, words: RngWords, k: nat)
    : (TcState, Option<TcError>)
  {
    if Exists(s.slots.genesis) then (s, Some(HashMismatch))
    else if EntropyOf(words).None? then (s, Some(RngFail))
    else
      var g := GenesisEntry(sha, factory, powerCycles, EntropyOf(words).value);
      if k < 2 * ENTRY_SIZE then (s.(slots := TornGenesis(s.slots, g, k)), None)
      else (s.(slots := TornGenesis(s.slots, g, 2 * ENTRY_SIZE), valid := true), Some(TcOk))
  }

  function GenesisEntry(sha: Hash, factory: uint64, powerCycles: uint32, entropy: Entropy): Slot {
    Sealed(sha, Image(Fields(factory, 0, 0, 0, 0, powerCycles, NOMINAL_LSI, entropy), Zeros(HASH_LEN)))
  }

  function VerifyChain(sha: Hash, s: Slots): TcError {
    if !Exists(s.current) then NotInitialized
    else if !Verified(sha, s.current) then HashMismatch
    else if !Exists(s.previous) then TcOk
    else if PrevHash(s.current) != SelfHash(s.previous) then ChainBroken
    else if !Verified(sha, s.previous) then HashMismatch
    else TcOk
  }

  /** Reset: the slots survive, the module's static state does not. */
  function Reset(s: TcState): TcState {
    s.(valid := false, lsi := NOMINAL_LSI)
  }

  // ---------- Fields of a sealed entry ----------

  lemma SealedParts(sha: Hash, body: seq<byte>)
    requires |body| == SELF_AT
    ensures var e := Sealed(sha, body);
            Hashed(e) == body && SelfHash(e) == sha(body) && PrevHash(e) == body[PREV_AT..] && Verified(sha, e)
            && e[SELF_END..] == Zeros(16)
  {
    var e := Sealed(sha, body);
    assert e[..SELF_AT] == body;
    assert e[SELF_AT..SELF_END] == sha(body);
  }

  lemma ImageParts(f: Fields, prevHash: Digest)
    ensures var b := Image(f, prevHash);
            b[0..8] == LE(f.timestamp, 8) && b[8..12] == LE(f.counter, 4) && b[20..24] == LE(f.powerCycles, 4)
            && b[PREV_AT..] == prevHash
  {
    hide LE;
  }

  lemma SealedFields(sha: Hash, f: Fields, prevHash: Digest)
    ensures var e := Sealed(sha, Image(f, prevHash));
            Timestamp(e) == f.timestamp && Counter(e) == f.counter && PowerCycles(e) == f.powerCycles
            && PrevHash(e) == prevHash
  {
    hide LE, FromLE, Image;
    var b := Image(f, prevHash);
    var e := Sealed(sha, b);
    ImageParts(f, prevHash);
    SealedParts(sha, b);
    FieldWidths();
    LoadStore(f.timestamp, 8);
    LoadStore(f.counter, 4);
    LoadStore(f.powerCycles, 4);
    assert e[0..8] == b[0..8] && e[8..12] == b[8..12] && e[20..24] == b[20..24];
  }
}
