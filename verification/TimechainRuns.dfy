/**
 * Whole lives of the timechain, from zeroed memory through provisioning, updates, refused updates,
 * reboots and power cuts. A run carries the history of all entries, which no code reads.
 */
module TimechainRuns {
  import opened Bytes
  import opened Audit
  import opened Timechain
  import opened TimechainCrash

  datatype Op =
    | UpdateOp(sample: Sample)
    | CutOp(cutSample: Sample, k: nat, cutRtc: bool)  // the power fails after k byte writes, then the device boots
    | RebootOp(rtc: bool)
    | GenesisOp(factory: uint64, powerCycles: uint32, words: RngWords)
    | GenesisCutOp(factory: uint64, powerCycles: uint32, words: RngWords, k: nat, cutRtc: bool)

  /** An update that was cut: the slots before it, the entry it was writing, and how far it came. */
  datatype Cut = Cut(before: Slots, entry: Slot, reading: uint64, k: nat)

  /**
   * `history` lists every entry the chain has adopted and `readings` the clock reading behind each;
   * `pending` is a cut that no boot has settled yet, `torn` says that the previous slot may be torn.
   */
  datatype Life = Life(tc: TcState, history: seq<Slot>, readings: seq<uint64>, pending: Option<Cut>, torn: bool)

  function Blank(log: seq<Entry>): Life {
    Life(TcState(Slots(Zeros(128), Zeros(128), Zeros(128)), false, NOMINAL_LSI, log), [], [], None, false)
  }

  /** Boot; an accepted boot settles a pending cut as done or as never begun. */
  function Boot(sha: Hash, l: Life, rtc: bool): Life {
    var (t, error) := Init(sha, Reset(l.tc), rtc);
    if error != TcOk || l.pending.None? then l.(tc := t)
    else
      var c := l.pending.value;
      if c.k > ENTRY_SIZE && t.slots.current == c.entry then
        Life(t, l.history + [c.entry], l.readings + [c.reading], None, false)
      else l.(tc := t, pending := None, torn := true)
  }

  /** A power cut comes before the last of the 256 bytes. */
  function BytesBeforeCut(k: nat): nat {
    if k < 2 * ENTRY_SIZE then k else 2 * ENTRY_SIZE - 1
  }

  function Do(sha: Hash, l: Life, op: Op): Life {
    match op
    case UpdateOp(x) =>
      var (t, error) := Update(sha, l.tc, x, 2 * ENTRY_SIZE);
      if error == Some(TcOk) then
        Life(t, l.history + [t.slots.current], l.readings + [x.reading], l.pending, false)
      else l.(tc := t)
    case CutOp(x, k, rtc) =>
      var (t, error) := Update(sha, l.tc, x, BytesBeforeCut(k));
      var cut := if error.None? then Some(CutOf(sha, l, x, k)) else l.pending;
      Boot(sha, l.(tc := t, pending := cut), rtc)
    case RebootOp(rtc) => Boot(sha, l, rtc)
    case GenesisOp(factory, powerCycles, words) =>
      var (t, error) := Genesis(sha, l.tc, factory, powerCycles, words, 2 * ENTRY_SIZE);
      if error == Some(TcOk) then l.(tc := t, history := [t.slots.genesis], readings := [factory])
      else l.(tc := t)
    case GenesisCutOp(factory, powerCycles, words, k, rtc) =>
      var (t, error) := Genesis(sha, l.tc, factory, powerCycles, words, BytesBeforeCut(k));
      if error.None? && Boots(sha, t.slots) then
        Boot(sha, l.(tc := t, history := [t.slots.genesis], readings := [factory]), rtc)
      else Boot(sha, l.(tc := t), rtc)
  }

  function CutOf(sha: Hash, l: Life, x: Sample, k: nat): Cut
    requires EntropyOf(x.words).Some?
  {
    Cut(l.tc.slots, NextEntry(sha, l.tc, x), x.reading, BytesBeforeCut(k))
  }

  function Live(sha: Hash, l: Life, ops: seq<Op>): Life
    decreases |ops|
  {
    if |ops| == 0 then l else Live(sha, Do(sha, l, ops[0]), ops[1..])
  }

  /**
   * No entry that the operation seals has the all-zero hash, which stands for "never written", and
   * the hashed fields of a torn slot do not happen to collide with those of the entry it tore.
   */
  ghost predicate Honest(sha: Hash, l: Life, op: Op) {
    match op
    case UpdateOp(x) => Accepts(l.tc, x) ==> Exists(NextEntry(sha, l.tc, x))
    case CutOp(x, k, _) =>
      Accepts(l.tc, x) ==>
        var c := CutOf(sha, l, x, k);
        Exists(c.entry) && !Collide(sha, Hashed(Torn(c.before, c.entry, c.k).current), Hashed(c.before.current))
    case RebootOp(_) => true
    case GenesisOp(factory, powerCycles, words) => HonestGenesis(sha, l, factory, powerCycles, words)
    case GenesisCutOp(factory, powerCycles, words, _, _) => HonestGenesis(sha, l, factory, powerCycles, words)
  }

  ghost predicate HonestGenesis(sha: Hash, l: Life, factory: uint64, powerCycles: uint32, words: RngWords) {
    !Exists(l.tc.slots.genesis) && EntropyOf(words).Some? ==>
      Exists(GenesisEntry(sha, factory, powerCycles, EntropyOf(words).value))
  }

  ghost predicate HonestRun(sha: Hash, l: Life, ops: seq<Op>)
    decreases |ops|
  {
    |ops| == 0 || (Honest(sha, l, ops[0]) && HonestRun(sha, Do(sha, l, ops[0]), ops[1..]))
  }

  // ---------- The chain of adopted entries ----------

  function Latest(readings: seq<uint64>): (t: uint64)
    requires |readings| > 0
    ensures t in readings && forall i :: 0 <= i < |readings| ==> readings[i] <= t
    decreases |readings|
  {
    var n := |readings| - 1;
    if n == 0 then readings[0]
    else
      var t := Latest(readings[..n]);
      assert forall i :: 0 <= i < n ==> readings[..n][i] == readings[i];
      Later(t, readings[n])
  }

  ghost predicate EntryAt(sha: Hash, h: seq<Slot>, readings: seq<uint64>, i: nat)
    requires i < |h| == |readings|
  {
    && Whole(sha, h[i]) && Exists(h[i])
    && PrevHash(h[i]) == (if i == 0 then Zeros(HASH_LEN) else SelfHash(h[i - 1]))
    && Timestamp(h[i]) == Latest(readings[..i + 1])
    && Counter(h[i]) == i % WRAP
  }

  /** Every adopted entry is sealed, linked to the one before, counted, and stamped with the latest reading so far. */
  ghost predicate Chain(sha: Hash, h: seq<Slot>, readings: seq<uint64>) {
    |h| == |readings| && forall i :: 0 <= i < |h| ==> EntryAt(sha, h, readings, i)
  }

  ghost predicate Extends(sha: Hash, h: seq<Slot>, readings: seq<uint64>, e: Slot, reading: uint64)
    requires |h| > 0
  {
    var last := h[|h| - 1];
    && Whole(sha, e) && Exists(e) && PrevHash(e) == SelfHash(last)
    && Timestamp(e) == Later(Timestamp(last), reading)
    && Counter(e) == (Counter(last) + 1) % WRAP
  }

  lemma CounterStep(n: nat)
    ensures (n % WRAP + 1) % WRAP == (n + 1) % WRAP
  {
  }

  lemma OldEntryStays(sha: Hash, h: seq<Slot>, readings: seq<uint64>, e: Slot, reading: uint64, i: nat)
    requires i < |h| == |readings| && EntryAt(sha, h, readings, i)
    ensures EntryAt(sha, h + [e], readings + [reading], i)
  {
    hide Whole, Exists, Timestamp, Counter, Latest, PrevHash, SelfHash;
    assert (readings + [reading])[..i + 1] == readings[..i + 1];
  }

  lemma NewEntryFits(sha: Hash, h: seq<Slot>, readings: seq<uint64>, e: Slot, reading: uint64)
    requires |h| == |readings| > 0 && EntryAt(sha, h, readings, |h| - 1)
    requires Extends(sha, h, readings, e, reading)
    ensures EntryAt(sha, h + [e], readings + [reading], |h|)
  {
    hide Whole, Exists, Timestamp, Counter, PrevHash, SelfHash;
    var n := |h|;
    var r := readings + [reading];
    CounterStep(n - 1);
    assert readings[..n - 1 + 1] == readings && r[..n + 1] == r && r[..n] == readings;
  }

  lemma ChainExtends(sha: Hash, h: seq<Slot>, readings: seq<uint64>, e: Slot, reading: uint64)
    requires |h| > 0 && Chain(sha, h, readings) && Extends(sha, h, readings, e, reading)
    ensures Chain(sha, h + [e], readings + [reading])
  {
    hide EntryAt, Extends;
    assert EntryAt(sha, h, readings, |h| - 1);
    NewEntryFits(sha, h, readings, e, reading);
    forall i | 0 <= i < |h|
      ensures EntryAt(sha, h + [e], readings + [reading], i)
    {
      OldEntryStays(sha, h, readings, e, reading, i);
    }
  }

  lemma NextExtends(sha: Hash, l: Life, x: Sample)
    requires EntropyOf(x.words).Some? && Exists(NextEntry(sha, l.tc, x))
    requires |l.history| > 0 && l.tc.slots.current == l.history[|l.history| - 1]
    ensures Extends(sha, l.history, l.readings, NextEntry(sha, l.tc, x), x.reading)
  {
    hide NextEntry, Whole, Exists, Timestamp, Counter;
    NextIsWhole(sha, l.tc, x);
  }

  // ---------- The invariant ----------

  function Last(h: seq<Slot>): Slot
    requires |h| > 0
  {
    h[|h| - 1]
  }

  ghost predicate Unborn(l: Life) {
    l.history == [] && l.readings == [] && l.pending.None? && !l.torn && !l.tc.valid
  }

  /** Never provisioned, as far as the device can tell: a cut provisioning may have left bytes in the genesis slot. */
  ghost predicate Unprovisioned(l: Life) {
    Unborn(l) && !Exists(l.tc.slots.genesis) && l.tc.slots.current == Zeros(128) && l.tc.slots.previous == Zeros(128)
  }

  /** Lost in a cut provisioning: the genesis slot counts as written, but there is no entry to boot from. */
  ghost predicate Stillborn(sha: Hash, l: Life) {
    Unborn(l) && Dead(sha, l.tc)
  }

  /** A cut not yet settled: the slots are the torn image of the last adopted entry and its would-be successor. */
  ghost predicate PendingOk(sha: Hash, l: Life, c: Cut)
    requires |l.history| > 0
  {
    && c.k <= 2 * ENTRY_SIZE
    && c.before.current == Last(l.history)
    && l.tc.slots == Torn(c.before, c.entry, c.k)
    && Extends(sha, l.history, l.readings, c.entry, c.reading)
    && !Collide(sha, Hashed(l.tc.slots.current), Hashed(c.before.current))
    && !l.tc.valid
  }

  ghost predicate SettledOk(l: Life)
    requires |l.history| > 0
  {
    && l.tc.slots.current == Last(l.history)
    && (!l.torn ==> l.tc.slots.previous == if |l.history| == 1 then Zeros(128) else l.history[|l.history| - 2])
  }

  ghost predicate Provisioned(sha: Hash, l: Life) {
    && |l.history| > 0
    && Chain(sha, l.history, l.readings)
    && l.tc.slots.genesis == l.history[0]
    && (l.pending.None? ==> SettledOk(l))
    && (l.pending.Some? ==> PendingOk(sha, l, l.pending.value))
  }

  ghost predicate Inv(sha: Hash, l: Life) {
    Unprovisioned(l) || Stillborn(sha, l) || Provisioned(sha, l)
  }

  lemma GenesisSlotExists(sha: Hash, l: Life)
    requires Provisioned(sha, l)
    ensures Exists(l.tc.slots.genesis)
  {
    hide Exists, Whole;
    assert EntryAt(sha, l.history, l.readings, 0);
  }

  lemma LastIsWhole(sha: Hash, l: Life)
    requires Provisioned(sha, l)
    ensures Whole(sha, Last(l.history)) && Exists(Last(l.history))
  {
    hide Exists, Whole;
    assert EntryAt(sha, l.history, l.readings, |l.history| - 1);
  }

  lemma BlankDoesNotBoot(sha: Hash, l: Life, rtc: bool)
    requires Unprovisioned(l)
    ensures Unprovisioned(Boot(sha, l, rtc))
  {
    assert !Exists(Zeros(128));
  }

  /** What a boot does to slots and service, whatever the device has been through. */
  lemma BootOutcome(sha: Hash, l: Life, rtc: bool)
    ensures Boot(sha, l, rtc).tc.slots == l.tc.slots
    ensures Boot(sha, l, rtc).tc.valid <==> rtc && Boots(sha, l.tc.slots)
    ensures !Boots(sha, l.tc.slots) ==> Boot(sha, l, rtc) == l.(tc := Boot(sha, l, rtc).tc)
  {
    hide Init, Boots;
    BootsIsInit(sha, Reset(l.tc));
    InitFrame(sha, Reset(l.tc), rtc);
  }

  /** No operation changes the slots of a dead device, or anything but its log. */
  lemma DeadStep(sha: Hash, l: Life, op: Op)
    requires Dead(sha, l.tc)
    ensures Dead(sha, Do(sha, l, op).tc) && Do(sha, l, op).tc.slots == l.tc.slots
    ensures Do(sha, l, op) == l.(tc := Do(sha, l, op).tc)
  {
    hide Boots, Boot, Exists;
    match op
    case UpdateOp(_) =>
    case CutOp(_, _, rtc) => BootOutcome(sha, l, rtc);
    case RebootOp(rtc) => BootOutcome(sha, l, rtc);
    case GenesisOp(_, _, _) =>
    case GenesisCutOp(_, _, _, _, rtc) => BootOutcome(sha, l, rtc);
  }

  lemma TornKeepsGenesis(s: Slots, e: Slot, k: nat)
    requires k <= 2 * ENTRY_SIZE
    ensures Torn(s, e, k).genesis == s.genesis
    ensures k > ENTRY_SIZE ==> Torn(s, e, k).previous == s.current
    ensures k <= ENTRY_SIZE ==> Torn(s, e, k).current == s.current
  {
  }

  lemma BootKeeps(sha: Hash, l: Life, rtc: bool)
    requires Provisioned(sha, l)
    ensures Provisioned(sha, Boot(sha, l, rtc))
  {
    hide Exists, Whole, Verified, LinkHolds, Torn, Chain, Extends, Timestamp, Counter;
    var s := Reset(l.tc);
    var t := Init(sha, s, rtc).0;
    InitFrame(sha, s, rtc);
    if Init(sha, s, rtc).1 == TcOk && l.pending.Some? {
      var c := l.pending.value;
      LastIsWhole(sha, l);
      ExtensionIsWhole(sha, l, c.entry, c.reading);
      SurvivorIsWhole(sha, c.before, c.entry, c.k);
      TornKeepsGenesis(c.before, c.entry, c.k);
      if c.k > ENTRY_SIZE && t.slots.current == c.entry {
        ChainExtends(sha, l.history, l.readings, c.entry, c.reading);
      }
    }
  }

  lemma InitFrame(sha: Hash, s: TcState, rtc: bool)
    ensures Init(sha, s, rtc).0.slots == s.slots
    ensures Init(sha, s, rtc).1 == TcOk ==> Verified(sha, s.slots.current)
    ensures Init(sha, s, rtc).1 != TcOk ==> Init(sha, s, rtc).0.valid == s.valid
  {
    hide Exists, Verified, LinkHolds;
  }

  lemma ExtensionIsWhole(sha: Hash, l: Life, e: Slot, reading: uint64)
    requires |l.history| > 0 && Extends(sha, l.history, l.readings, e, reading)
    ensures Whole(sha, e)
  {
    hide Whole, Exists, Timestamp, Counter;
  }

  lemma UpdateKeeps(sha: Hash, l: Life, x: Sample)
    requires Provisioned(sha, l) && Honest(sha, l, UpdateOp(x))
    ensures Provisioned(sha, Do(sha, l, UpdateOp(x)))
  {
    hide Exists, Whole, Torn, Chain, Extends, NextEntry, Timestamp, Counter, Collide;
    FailedUpdateKeepsSlots(sha, l.tc, x, 2 * ENTRY_SIZE);
    if Accepts(l.tc, x) {
      var e := NextEntry(sha, l.tc, x);
      WholeUpdate(l.tc.slots, e);
      NextExtends(sha, l, x);
      ChainExtends(sha, l.history, l.readings, e, x.reading);
    }
  }

  lemma CutKeeps(sha: Hash, l: Life, x: Sample, k: nat, rtc: bool)
    requires Provisioned(sha, l) && Honest(sha, l, CutOp(x, k, rtc))
    ensures Provisioned(sha, Do(sha, l, CutOp(x, k, rtc)))
  {
    hide Exists, Whole, Torn, Chain, Extends, NextEntry, Timestamp, Counter, Collide, Boot;
    var k' := BytesBeforeCut(k);
    var (t, error) := Update(sha, l.tc, x, k');
    FailedUpdateKeepsSlots(sha, l.tc, x, k');
    var cut := if error.None? then Some(CutOf(sha, l, x, k)) else l.pending;
    var dark := l.(tc := t, pending := cut);
    if error.None? {
      NextExtends(sha, l, x);
      TornKeepsGenesis(l.tc.slots, NextEntry(sha, l.tc, x), k');
      PowerLossBoots(sha, l, x, k, rtc);
    } else {
      BootKeeps(sha, dark, rtc);
    }
  }

  /** The reset at boot drops the validity flag, so the cut is pending from then on. */
  lemma PowerLossBoots(sha: Hash, l: Life, x: Sample, k: nat, rtc: bool)
    requires Provisioned(sha, l) && Honest(sha, l, CutOp(x, k, rtc)) && Accepts(l.tc, x)
    ensures Provisioned(sha, Do(sha, l, CutOp(x, k, rtc)))
  {
    hide Exists, Whole, Torn, Chain, Extends, NextEntry, Timestamp, Counter, Collide, Init, TooFarBack;
    var c := CutOf(sha, l, x, k);
    var t := Update(sha, l.tc, x, c.k).0;
    NextExtends(sha, l, x);
    TornKeepsGenesis(l.tc.slots, c.entry, c.k);
    var off := l.(tc := Reset(t), pending := Some(c));
    assert Provisioned(sha, off);
    BootKeeps(sha, off, rtc);
    assert Reset(Reset(t)) == Reset(t);
  }

  lemma GenesisKeeps(sha: Hash, l: Life, factory: uint64, powerCycles: uint32, words: RngWords)
    requires Inv(sha, l) && Honest(sha, l, GenesisOp(factory, powerCycles, words))
    ensures Inv(sha, Do(sha, l, GenesisOp(factory, powerCycles, words)))
  {
    hide Whole, Chain, GenesisEntry, Gathered, Timestamp, Counter, Boots;
    if Provisioned(sha, l) {
      GenesisSlotExists(sha, l);
    } else if Unprovisioned(l) && EntropyOf(words).Some? {
      var g := GenesisEntry(sha, factory, powerCycles, EntropyOf(words).value);
      WholeGenesis(l.tc.slots, g);
      GenesisStartsChain(sha, factory, powerCycles, EntropyOf(words).value);
    }
  }

  lemma WholeGenesis(s: Slots, g: Slot)
    ensures TornGenesis(s, g, 2 * ENTRY_SIZE) == Slots(g, s.previous, g)
  {
    assert g[..ENTRY_SIZE] + s.current[ENTRY_SIZE..] == g;
  }

  lemma GenesisCutKeeps(sha: Hash, l: Life, factory: uint64, powerCycles: uint32, words: RngWords, k: nat, rtc: bool)
    requires Inv(sha, l) && Honest(sha, l, GenesisCutOp(factory, powerCycles, words, k, rtc))
    ensures Inv(sha, Do(sha, l, GenesisCutOp(factory, powerCycles, words, k, rtc)))
  {
    hide Whole, Chain, GenesisEntry, Gathered, Timestamp, Counter, Boots, Boot, TornGenesis, Exists, BirthSurvives;
    if Provisioned(sha, l) {
      GenesisSlotExists(sha, l);
      BootKeeps(sha, l, rtc);
    } else if Stillborn(sha, l) {
      DeadStep(sha, l, GenesisCutOp(factory, powerCycles, words, k, rtc));
    } else if EntropyOf(words).None? {
      BlankDoesNotBoot(sha, l, rtc);
    } else {
      BirthCut(sha, l, factory, powerCycles, words, BytesBeforeCut(k), rtc);
    }
  }

  /**
   * Provisioning cut in a device that was never provisioned: nothing has happened yet, or it is lost,
   * or it is born.
   */
  lemma BirthCut(sha: Hash, l: Life, factory: uint64, powerCycles: uint32, words: RngWords, k: nat, rtc: bool)
    requires Unprovisioned(l) && EntropyOf(words).Some? && k < 2 * ENTRY_SIZE
    requires HonestGenesis(sha, l, factory, powerCycles, words)
    ensures var g := GenesisEntry(sha, factory, powerCycles, EntropyOf(words).value);
            var m := Do(sha, l, GenesisCutOp(factory, powerCycles, words, k, rtc));
            && Inv(sha, m)
            && (Dead(sha, m.tc) <==> !BirthSurvives(g, k))
            && (BirthSurvives(g, k) ==>
                  if k <= ENTRY_SIZE then Unprovisioned(m) else m.tc.slots == Slots(g, Zeros(128), g))
  {
    hide Whole, Chain, GenesisEntry, Gathered, Timestamp, Counter, Boots, Boot, TornGenesis, Exists, BirthSurvives;
    var g := GenesisEntry(sha, factory, powerCycles, EntropyOf(words).value);
    var t := l.tc.(slots := TornGenesis(l.tc.slots, g, k));
    GenesisStartsChain(sha, factory, powerCycles, EntropyOf(words).value);
    BootOutcome(sha, l.(tc := t), rtc);
    if k <= ENTRY_SIZE {
      EarlyBirthCut(sha, l.tc.slots, g, k);
      if BirthSurvives(g, k) { BlankDoesNotBoot(sha, l.(tc := t), rtc); }
    } else {
      NothingExistsInZeros();
      LateBirthCut(sha, l.tc.slots, g, k);
      if Boots(sha, t.slots) {
        var born := l.(tc := t, history := [g], readings := [factory]);
        BootOutcome(sha, born, rtc);
        BootKeeps(sha, born, rtc);
      }
    }
  }

  lemma BlankIsUnprovisioned(log: seq<Entry>)
    ensures Unprovisioned(Blank(log))
  {
    NothingExistsInZeros();
  }

  lemma NothingExistsInZeros()
    ensures !Exists(Zeros(128))
  {
  }

  lemma GenesisStartsChain(sha: Hash, factory: uint64, powerCycles: uint32, entropy: Entropy)
    requires Exists(GenesisEntry(sha, factory, powerCycles, entropy))
    ensures Chain(sha, [GenesisEntry(sha, factory, powerCycles, entropy)], [factory])
    ensures EntryAt(sha, [GenesisEntry(sha, factory, powerCycles, entropy)], [factory], 0)
  {
    hide Image, Timestamp, Counter;
    var f := Fields(factory, 0, 0, 0, 0, powerCycles, NOMINAL_LSI, entropy);
    var g := GenesisEntry(sha, factory, powerCycles, entropy);
    SealedParts(sha, Image(f, Zeros(HASH_LEN)));
    SealedFields(sha, f, Zeros(HASH_LEN));
    assert [factory][..1] == [factory];
    assert EntryAt(sha, [g], [factory], 0);
  }

  lemma StepKeeps(sha: Hash, l: Life, op: Op)
    requires Inv(sha, l) && Honest(sha, l, op)
    ensures Inv(sha, Do(sha, l, op))
  {
    hide Provisioned, Unprovisioned, Stillborn, Boot, Genesis, Update, Honest;
    if Stillborn(sha, l) {
      StillbornStep(sha, l, op);
      return;
    }
    match op
    case UpdateOp(x) =>
      if Provisioned(sha, l) { UpdateKeeps(sha, l, x); } else { BlankRefuses(sha, l, x, 2 * ENTRY_SIZE); }
    case CutOp(x, k, rtc) =>
      if Provisioned(sha, l) {
        CutKeeps(sha, l, x, k, rtc);
      } else {
        BlankRefuses(sha, l, x, BytesBeforeCut(k));
        BlankDoesNotBoot(sha, l, rtc);
      }
    case RebootOp(rtc) =>
      if Provisioned(sha, l) { BootKeeps(sha, l, rtc); } else { BlankDoesNotBoot(sha, l, rtc); }
    case GenesisOp(factory, powerCycles, words) =>
      GenesisKeeps(sha, l, factory, powerCycles, words);
    case GenesisCutOp(factory, powerCycles, words, k, rtc) =>
      GenesisCutKeeps(sha, l, factory, powerCycles, words, k, rtc);
  }

  lemma BlankRefuses(sha: Hash, l: Life, x: Sample, k: nat)
    requires Unprovisioned(l)
    ensures Update(sha, l.tc, x, k) == (l.tc, Some(NotInitialized))
  {
  }

  lemma StillbornStep(sha: Hash, l: Life, op: Op)
    requires Stillborn(sha, l)
    ensures Stillborn(sha, Do(sha, l, op))
  {
    hide Do, Dead;
    DeadStep(sha, l, op);
    DeadIsOut(sha, Do(sha, l, op).tc);
  }

  lemma DeadIsOut(sha: Hash, s: TcState)
    requires Dead(sha, s)
    ensures !s.valid
  {
  }

  /** The invariant holds after every sequence of operations, power cuts at any byte included. */
  lemma {:induction false} LifeKeeps(sha: Hash, l: Life, ops: seq<Op>)
    requires Inv(sha, l) && HonestRun(sha, l, ops)
    ensures Inv(sha, Live(sha, l, ops))
    decreases |ops|
  {
    hide Inv, Do, Honest;
    if |ops| > 0 {
      StepKeeps(sha, l, ops[0]);
      LifeKeeps(sha, Do(sha, l, ops[0]), ops[1..]);
    }
  }
}
