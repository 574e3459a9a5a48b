/**
 * What a power cut means for the rest of a device's life: which cuts a later boot can recover from,
 * and that a device it cannot recover stays out of service whatever is done to it.
 */
module TimechainRecovery {
  import opened Bytes
  import opened Audit
  import opened Timechain
  import opened TimechainCrash
  import opened TimechainRuns
  import opened TimechainHistory

  // ---------- A working device would boot again ----------

  /** A device in service has slots that the next boot accepts. */
  ghost predicate Bootable(sha: Hash, l: Life) {
    l.tc.valid ==> Boots(sha, l.tc.slots)
  }

  lemma UpdateIsBootable(sha: Hash, l: Life, x: Sample)
    requires Bootable(sha, l) && Honest(sha, l, UpdateOp(x))
    ensures Bootable(sha, Do(sha, l, UpdateOp(x)))
  {
    hide NextEntry, Torn;
    if Accepts(l.tc, x) {
      NextIsWhole(sha, l.tc, x);
      WholeUpdate(l.tc.slots, NextEntry(sha, l.tc, x));
    } else {
      FailedUpdateKeepsSlots(sha, l.tc, x, 2 * ENTRY_SIZE);
    }
  }

  lemma GenesisIsBootable(sha: Hash, l: Life, factory: uint64, powerCycles: uint32, words: RngWords)
    requires Inv(sha, l) && Bootable(sha, l) && Honest(sha, l, GenesisOp(factory, powerCycles, words))
    ensures Bootable(sha, Do(sha, l, GenesisOp(factory, powerCycles, words)))
  {
    hide Image, Gathered, Chain, TornGenesis;
    if Provisioned(sha, l) {
      GenesisSlotExists(sha, l);
    } else if Unprovisioned(l) && EntropyOf(words).Some? {
      var entropy := EntropyOf(words).value;
      NothingExistsInZeros();
      WholeGenesis(l.tc.slots, GenesisEntry(sha, factory, powerCycles, entropy));
      GenesisStartsChain(sha, factory, powerCycles, entropy);
    }
  }

  lemma {:induction false} LifeIsBootable(sha: Hash, l: Life, ops: seq<Op>)
    requires Inv(sha, l) && Bootable(sha, l) && HonestRun(sha, l, ops)
    ensures Inv(sha, Live(sha, l, ops)) && Bootable(sha, Live(sha, l, ops))
    decreases |ops|
  {
    hide Inv, Do, Honest, Bootable;
    if |ops| > 0 {
      StepKeeps(sha, l, ops[0]);
      StepIsBootable(sha, l, ops[0]);
      LifeIsBootable(sha, Do(sha, l, ops[0]), ops[1..]);
    }
  }

  lemma BootIsBootable(sha: Hash, l: Life, rtc: bool)
    ensures Bootable(sha, Boot(sha, l, rtc))
  {
    hide Boots, Boot;
    BootOutcome(sha, l, rtc);
  }

  lemma StepIsBootable(sha: Hash, l: Life, op: Op)
    requires Inv(sha, l) && Bootable(sha, l) && Honest(sha, l, op)
    ensures Bootable(sha, Do(sha, l, op))
  {
    hide Inv, Honest, Bootable, Boot, Update, Genesis, Boots;
    match op
    case UpdateOp(x) => UpdateIsBootable(sha, l, x);
    case CutOp(x, k, rtc) =>
      var k' := BytesBeforeCut(k);
      var (t, error) := Update(sha, l.tc, x, k');
      FailedUpdateKeepsSlots(sha, l.tc, x, k');
      BootIsBootable(sha, l.(tc := t, pending := if error.None? then Some(CutOf(sha, l, x, k)) else l.pending), rtc);
    case RebootOp(rtc) => BootIsBootable(sha, l, rtc);
    case GenesisOp(factory, powerCycles, words) => GenesisIsBootable(sha, l, factory, powerCycles, words);
    case GenesisCutOp(factory, powerCycles, words, k, rtc) =>
      var k' := BytesBeforeCut(k);
      var t := Genesis(sha, l.tc, factory, powerCycles, words, k').0;
      BootIsBootable(sha, l.(tc := t), rtc);
      BootIsBootable(sha, l.(tc := t, history := [t.slots.genesis], readings := [factory]), rtc);
  }

  // ---------- A device that cannot boot stays out of service ----------

  /** Neither updates nor reboots nor provisioning change the slots of a dead device or bring it back. */
  lemma {:induction false} DeadForEver(sha: Hash, l: Life, ops: seq<Op>)
    requires Dead(sha, l.tc)
    ensures !Live(sha, l, ops).tc.valid && Live(sha, l, ops).tc.slots == l.tc.slots
    decreases |ops|
  {
    hide Do, Boots;
    if |ops| > 0 {
      DeadStep(sha, l, ops[0]);
      DeadForEver(sha, Do(sha, l, ops[0]), ops[1..]);
    }
  }

  // ---------- Cuts of a reachable device ----------

  /** The state right after the power has failed and come back, before the boot check looks at the slots. */
  lemma AfterCut(sha: Hash, l: Life, x: Sample, k: nat, rtc: bool)
    requires k < 2 * ENTRY_SIZE && Accepts(l.tc, x)
    ensures var m := Do(sha, l, CutOp(x, k, rtc));
            && m.tc.slots == Torn(l.tc.slots, NextEntry(sha, l.tc, x), k)
            && (m.tc.valid <==> rtc && Boots(sha, m.tc.slots))
  {
    hide Boots, Boot, Torn, NextEntry, TooFarBack, Gathered;
    var t := Update(sha, l.tc, x, k).0;
    BootOutcome(sha, l.(tc := t, pending := Some(CutOf(sha, l, x, k))), rtc);
  }

  /** A device in service has an adopted, whole current entry, and nothing pending. */
  lemma InService(sha: Hash, l: Life)
    requires Inv(sha, l) && l.tc.valid
    ensures Provisioned(sha, l) && l.pending.None? && l.tc.slots.current == Last(l.history)
    ensures Whole(sha, l.tc.slots.current) && Exists(l.tc.slots.genesis)
  {
    hide Chain, Extends, Torn, Collide, Whole, Exists;
    LastIsWhole(sha, l);
    GenesisSlotExists(sha, l);
  }

  /**
   * A cut update of a device in service can be recovered from - by any operations at all - exactly
   * when the slots before it and the entry being written say so; and then one boot is enough.
   */
  lemma CutRecovers(sha: Hash, l: Life, x: Sample, k: nat, rtc: bool)
    requires Inv(sha, l) && Bootable(sha, l) && l.tc.valid
    requires k < 2 * ENTRY_SIZE && Accepts(l.tc, x) && Honest(sha, l, CutOp(x, k, rtc))
    ensures var cut := Do(sha, l, CutOp(x, k, rtc));
            var recovers := Survives(l.tc.slots, NextEntry(sha, l.tc, x), k);
            && ((exists ops :: Live(sha, cut, ops).tc.valid) <==> recovers)
            && (Do(sha, cut, RebootOp(true)).tc.valid <==> recovers)
            && (Dead(sha, cut.tc) <==> !recovers)
  {
    hide Inv, Boots, Boot, Torn, NextEntry, Survives, Whole, Exists, TooFarBack;
    var e := NextEntry(sha, l.tc, x);
    var cut := Do(sha, l, CutOp(x, k, rtc));
    InService(sha, l);
    NextIsWhole(sha, l.tc, x);
    BootsExactly(sha, l.tc.slots, e, k);
    AfterCut(sha, l, x, k, rtc);
    BootOutcome(sha, cut, true);
    TornKeepsGenesis(l.tc.slots, e, k);
    OneOperation(sha, cut, RebootOp(true));
    if !Survives(l.tc.slots, e, k) {
      forall ops
        ensures !Live(sha, cut, ops).tc.valid
      {
        DeadForEver(sha, cut, ops);
      }
    }
  }

  lemma OneOperation(sha: Hash, l: Life, op: Op)
    ensures Live(sha, l, [op]) == Do(sha, l, op)
  {
    hide Do;
    assert Live(sha, Do(sha, l, op), [op][1..]) == Do(sha, l, op);
  }

  /** The current entry of a device in service does not link to itself, unless the last two entries collide. */
  lemma NoSelfLink(sha: Hash, l: Life)
    requires Inv(sha, l) && l.tc.valid
    ensures var n := |l.history|;
            || PrevHash(l.tc.slots.current) != SelfHash(l.tc.slots.current)
            || (n > 1 && Collide(sha, Hashed(l.history[n - 2]), Hashed(l.history[n - 1])))
  {
    hide Timestamp, Counter, Inv;
    InService(sha, l);
    var n := |l.history|;
    assert EntryAt(sha, l.history, l.readings, n - 1);
    if n > 1 {
      assert EntryAt(sha, l.history, l.readings, n - 2);
      CountersDiffer(n - 2);
      if Hashed(l.history[n - 2]) == Hashed(l.history[n - 1]) {
        SameCounter(l.history[n - 2], l.history[n - 1]);
      }
    }
  }

  lemma CountersDiffer(n: nat)
    ensures n % WRAP != (n + 1) % WRAP
  {
  }

  lemma SameCounter(a: Slot, b: Slot)
    requires Hashed(a) == Hashed(b)
    ensures Counter(a) == Counter(b)
  {
    assert a[8..12] == Hashed(a)[8..12] && b[8..12] == Hashed(b)[8..12];
  }

  /**
   * From zeroed memory, after any operations: when the power fails in an accepted update anywhere
   * from the end of the old hash's copy to the end of the new entry's fields - between the two
   * copies, say - the device never comes back into service and its slots never change again,
   * unless its last two entries are a hash collision.
   */
  lemma CutIsFinal(sha: Hash, log: seq<Entry>, before: seq<Op>, x: Sample, k: nat, rtc: bool, after: seq<Op>)
    requires HonestRun(sha, Blank(log), before)
    requires var l := Live(sha, Blank(log), before);
             Accepts(l.tc, x) && Honest(sha, l, CutOp(x, k, rtc))
    requires SELF_END <= k < ENTRY_SIZE + SELF_AT
    ensures var l := Live(sha, Blank(log), before);
            var cut := Do(sha, l, CutOp(x, k, rtc));
            var n := |l.history|;
            || (!Live(sha, cut, after).tc.valid && Live(sha, cut, after).tc.slots == cut.tc.slots)
            || (n > 1 && Collide(sha, Hashed(l.history[n - 2]), Hashed(l.history[n - 1])))
  {
    hide Inv, Dead, Do, Live, HonestRun, Torn, NextEntry, Exists, Collide;
    var l := Live(sha, Blank(log), before);
    BlankInv(sha, log);
    LifeIsBootable(sha, Blank(log), before);
    InService(sha, l);
    NoSelfLink(sha, l);
    CutRecovers(sha, l, x, k, rtc);
    var cut := Do(sha, l, CutOp(x, k, rtc));
    if !Survives(l.tc.slots, NextEntry(sha, l.tc, x), k) {
      DeadForEver(sha, cut, after);
    }
  }

  lemma BlankInv(sha: Hash, log: seq<Entry>)
    ensures Inv(sha, Blank(log)) && Bootable(sha, Blank(log))
  {
    BlankIsUnprovisioned(log);
  }

  /**
   * A device that dies in its first update: provisioned in zeroed memory, then cut between the two
   * copies. All it takes is that the sample is accepted and that the two digests are not all zero.
   */
  lemma FirstUpdateCutIsFinal(sha: Hash, log: seq<Entry>, factory: uint64, powerCycles: uint32, words: RngWords,
                              x: Sample, rtc: bool, after: seq<Op>)
    requires EntropyOf(words).Some? && EntropyOf(x.words).Some? && x.reading + MAX_BACKWARD >= factory
    requires Exists(GenesisEntry(sha, factory, powerCycles, EntropyOf(words).value))
    requires var born := Do(sha, Blank(log), GenesisOp(factory, powerCycles, words));
             Exists(NextEntry(sha, born.tc, x))
    ensures var born := Do(sha, Blank(log), GenesisOp(factory, powerCycles, words));
            born.tc.valid && !Live(sha, Do(sha, born, CutOp(x, ENTRY_SIZE, rtc)), after).tc.valid
  {
    hide Image, Gathered, Timestamp, NextEntry, Exists, Torn;
    var op := GenesisOp(factory, powerCycles, words);
    var born := Do(sha, Blank(log), op);
    BornFresh(sha, log, factory, powerCycles, words);
    OneOperation(sha, Blank(log), op);
    assert HonestRun(sha, Do(sha, Blank(log), op), [op][1..]);
    assert HonestRun(sha, Blank(log), [op]);
    TornKeepsGenesis(born.tc.slots, NextEntry(sha, born.tc, x), ENTRY_SIZE);
    CutIsFinal(sha, log, [op], x, ENTRY_SIZE, rtc, after);
  }

  lemma BornFresh(sha: Hash, log: seq<Entry>, factory: uint64, powerCycles: uint32, words: RngWords)
    requires EntropyOf(words).Some?
    ensures var born := Do(sha, Blank(log), GenesisOp(factory, powerCycles, words));
            born.tc.valid && |born.history| == 1 && Timestamp(born.tc.slots.current) == factory
  {
    hide Image, Gathered, Timestamp, TornGenesis;
    var entropy := EntropyOf(words).value;
    NothingExistsInZeros();
    WholeGenesis(Blank(log).tc.slots, GenesisEntry(sha, factory, powerCycles, entropy));
    SealedFields(sha, Fields(factory, 0, 0, 0, 0, powerCycles, NOMINAL_LSI, entropy), Zeros(HASH_LEN));
  }

  // ---------- Cuts of provisioning ----------

  /**
   * A cut provisioning can be made good - by any operations at all - exactly when no byte of the
   * genesis hash shows yet, or when what is missing of the current entry is zero anyway; then
   * provisioning again or one boot is enough.
   */
  lemma BirthCutRecovers(sha: Hash, l: Life, factory: uint64, powerCycles: uint32, words: RngWords, k: nat, rtc: bool)
    requires Unprovisioned(l) && EntropyOf(words).Some? && k < 2 * ENTRY_SIZE
    requires HonestGenesis(sha, l, factory, powerCycles, words)
    ensures var g := GenesisEntry(sha, factory, powerCycles, EntropyOf(words).value);
            var cut := Do(sha, l, GenesisCutOp(factory, powerCycles, words, k, rtc));
            var again := if k <= ENTRY_SIZE then GenesisOp(factory, powerCycles, words) else RebootOp(true);
            && ((exists ops :: Live(sha, cut, ops).tc.valid) <==> BirthSurvives(g, k))
            && (Do(sha, cut, again).tc.valid <==> BirthSurvives(g, k))
            && (Dead(sha, cut.tc) <==> !BirthSurvives(g, k))
  {
    hide Inv, Boots, BirthSurvives, GenesisEntry, Gathered, HonestGenesis, TornGenesis, Exists, Do;
    var g := GenesisEntry(sha, factory, powerCycles, EntropyOf(words).value);
    var cut := Do(sha, l, GenesisCutOp(factory, powerCycles, words, k, rtc));
    var again := if k <= ENTRY_SIZE then GenesisOp(factory, powerCycles, words) else RebootOp(true);
    BirthCut(sha, l, factory, powerCycles, words, k, rtc);
    OneOperation(sha, cut, again);
    if BirthSurvives(g, k) {
      AgainIsValid(sha, l, cut, factory, powerCycles, words, k);
    } else {
      forall ops
        ensures !Live(sha, cut, ops).tc.valid
      {
        DeadForEver(sha, cut, ops);
      }
      DeadForEver(sha, cut, [again]);
    }
  }

  lemma AgainIsValid(sha: Hash, l: Life, m: Life, factory: uint64, powerCycles: uint32, words: RngWords, k: nat)
    requires Unprovisioned(l) && EntropyOf(words).Some? && HonestGenesis(sha, l, factory, powerCycles, words)
    requires var g := GenesisEntry(sha, factory, powerCycles, EntropyOf(words).value);
             if k <= ENTRY_SIZE then Unprovisioned(m) else m.tc.slots == Slots(g, Zeros(128), g)
    ensures k <= ENTRY_SIZE ==> Do(sha, m, GenesisOp(factory, powerCycles, words)).tc.valid
    ensures k > ENTRY_SIZE ==> Do(sha, m, RebootOp(true)).tc.valid
  {
    hide GenesisEntry, Gathered, TornGenesis, Boot;
    if k > ENTRY_SIZE {
      NothingExistsInZeros();
      GenesisStartsChain(sha, factory, powerCycles, EntropyOf(words).value);
      BootOutcome(sha, m, true);
    }
  }

  // ---------- The chain check after a cut ----------

  /**
   * Boot check and chain check can disagree on a device in service: after a survived cut the chain
   * check reports a hash mismatch exactly when `ChecksOut` says so, up to one named collision, and
   * the next accepted update brings the two together again.
   */
  lemma ChecksDisagree(sha: Hash, l: Life, x: Sample, k: nat, y: Sample)
    requires Inv(sha, l) && l.tc.valid && VerifyChain(sha, l.tc.slots) == TcOk
    requires k < 2 * ENTRY_SIZE && Accepts(l.tc, x) && Honest(sha, l, CutOp(x, k, true))
    requires Survives(l.tc.slots, NextEntry(sha, l.tc, x), k)
    ensures var m := Do(sha, l, CutOp(x, k, true));
            var next := Do(sha, m, UpdateOp(y));
            && m.tc.valid
            && (|| VerifyChain(sha, m.tc.slots) == (if ChecksOut(l.tc.slots, k) then TcOk else HashMismatch)
                || Collide(sha, Hashed(m.tc.slots.previous), Hashed(l.tc.slots.previous)))
            && (Accepts(m.tc, y) && Honest(sha, m, UpdateOp(y)) ==>
                  next.tc.valid && VerifyChain(sha, next.tc.slots) == TcOk)
  {
    hide Inv, Boots, Boot, Torn, NextEntry, Survives, ChecksOut, Whole, Exists, TooFarBack, Collide;
    var e := NextEntry(sha, l.tc, x);
    var m := Do(sha, l, CutOp(x, k, true));
    CheckedBoots(sha, l.tc.slots);
    InService(sha, l);
    CutRecovers(sha, l, x, k, true);
    AfterCut(sha, l, x, k, true);
    TornKeepsGenesis(l.tc.slots, e, k);
    if !Collide(sha, Hashed(m.tc.slots.previous), Hashed(l.tc.slots.previous)) {
      CheckAfterCut(sha, l.tc.slots, e, k);
    }
    StepKeeps(sha, l, CutOp(x, k, true));
    InService(sha, m);
    if Accepts(m.tc, y) && Honest(sha, m, UpdateOp(y)) {
      LastExists(sha, m);
      UpdateRestoresChain(sha, m.tc, y);
    }
  }

  lemma CheckedBoots(sha: Hash, s: Slots)
    requires VerifyChain(sha, s) == TcOk
    ensures Boots(sha, s)
  {
  }

  lemma LastExists(sha: Hash, l: Life)
    requires Inv(sha, l) && l.tc.valid
    ensures Exists(l.tc.slots.current)
  {
    hide Inv, Exists;
    InService(sha, l);
    LastIsWhole(sha, l);
  }

  /** In an untorn chain the check always fails once the counter has been copied: two neighbours never share it. */
  lemma NeighboursDiffer(sha: Hash, l: Life, k: nat)
    requires Inv(sha, l) && l.tc.valid && !l.torn && |l.history| > 1 && 12 <= k <= SELF_AT
    ensures VerifyChain(sha, l.tc.slots) == TcOk && !ChecksOut(l.tc.slots, k)
  {
    hide Timestamp, Counter, Inv;
    InService(sha, l);
    WholeSlotsPass(sha, l);
    var n := |l.history|;
    assert EntryAt(sha, l.history, l.readings, n - 1) && EntryAt(sha, l.history, l.readings, n - 2);
    CountersDiffer(n - 2);
    SamePrefixSameCounter(l.tc.slots.current, l.tc.slots.previous, k);
  }

  lemma SamePrefixSameCounter(a: Slot, b: Slot, k: nat)
    requires 12 <= k <= ENTRY_SIZE
    ensures a[..k] == b[..k] ==> Counter(a) == Counter(b)
  {
    assert a[8..12] == a[..k][8..12] && b[8..12] == b[..k][8..12];
  }
}
