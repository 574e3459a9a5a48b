/**
 * What each operation of the timechain answers, writes and logs, told from the bytes of the slots
 * and the inputs alone, with the layout and limits as plain numbers.
 */
module TimechainOutcomes {
  import opened Bytes
  import opened Audit
  import opened Timechain
  import opened TimechainCrash
  import opened TimechainRuns
  import opened TimechainHistory

  // ---------- The boot check ----------

  /** Every answer of a boot, exactly when its cause is in the slots or the clock, and the alarm with it. */
  lemma BootOutcomes(sha: Hash, s: TcState, rtc: bool)
    ensures var (t, error) := Init(sha, s, rtc);
            var c := s.slots.current;
            var present := rtc && c[80..112] != Zeros(32);
            var sound := sha(c[..80]) == c[80..112];
            var linked := s.slots.previous[80..112] == Zeros(32) || c[48..80] == s.slots.previous[80..112];
            var born := s.slots.genesis[80..112] != Zeros(32);
            var alarm := error in {HashMismatch, ChainBroken, Rollback};
            && (error == TcOk <==> present && sound && linked)
            && (error == HashMismatch <==> present && !sound)
            && (error == ChainBroken <==> present && sound && !linked)
            && (error == Rollback <==> !present && born)
            && (error == NeedsProvision <==> !present && !born)
            && t.log == s.log + (if alarm then [Entry(PillOffTriggered, 0x02)] else [])
            && t.slots == s.slots && t.lsi == s.lsi
            && (t.valid <==> error == TcOk || s.valid)
  {
  }

  /** A boot with the clock stopped puts every provisioned device out of service, with a rollback alarm. */
  lemma StoppedClockAlarms(sha: Hash, log: seq<Entry>, ops: seq<Op>)
    requires HonestRun(sha, Blank(log), ops)
    ensures var l := Live(sha, Blank(log), ops);
            var m := Do(sha, l, RebootOp(false));
            |l.history| > 0 ==>
              && Init(sha, Reset(l.tc), false).1 == Rollback
              && m.tc.log == l.tc.log + [Entry(PillOffTriggered, 0x02)]
              && !m.tc.valid && m.tc.slots == l.tc.slots
  {
    hide Live, HonestRun, Chain, Provisioned;
    BlankIsUnprovisioned(log);
    LifeKeeps(sha, Blank(log), ops);
    var l := Live(sha, Blank(log), ops);
    if |l.history| > 0 {
      GenesisSlotExists(sha, l);
      BootOutcomes(sha, Reset(l.tc), false);
    }
  }

  /** A boot starts the module's static state over: nominal clock rate, in service only if the check passes. */
  lemma BootStartsOver(sha: Hash, l: Life, rtc: bool)
    ensures var t := Do(sha, l, RebootOp(rtc)).tc;
            && t.lsi == 32000 && t.slots == l.tc.slots
            && (t.valid <==> Init(sha, l.tc, rtc).1 == TcOk)
  {
    BootOutcomes(sha, l.tc, rtc);
    BootOutcomes(sha, Reset(l.tc), rtc);
  }

  // ---------- Updates ----------

  /** One of the four draws failed. */
  predicate Starved(words: RngWords) {
    exists i :: 0 <= i < 4 && words[i].None?
  }

  /**
   * Every answer of an update. A reading is refused exactly when it lies more than five seconds
   * behind the stored time; the log then gains the distance and the alarm, and nothing otherwise.
   */
  lemma UpdateOutcomes(sha: Hash, s: TcState, x: Sample, k: nat)
    ensures var (t, error) := Update(sha, s, x, k);
            var stored := FromLE(s.slots.current[0..8]);
            var behind := s.valid && x.reading + 5 < stored;
            var ready := s.valid && !behind;
            && (error == Some(NotInitialized) <==> !s.valid)
            && (error == Some(Rollback) <==> behind)
            && (error == Some(RngFail) <==> ready && Starved(x.words))
            && (error == Some(TcOk) <==> ready && !Starved(x.words) && k >= 256)
            && (error == None <==> ready && !Starved(x.words) && k < 256)
            && t.log == s.log + (if behind then [Entry(TimeRollback, (stored - x.reading) % 0x1_0000_0000),
                                                 Entry(PillOffTriggered, 0x02)] else [])
            && t.valid == s.valid && t.lsi == s.lsi
            && (error != Some(TcOk) && error != None ==> t.slots == s.slots)
  {
    hide Gathered, Torn, NextEntry, FromLE;
    if EntropyOf(x.words).None? {
      assert exists i :: 0 <= i < |x.words| && x.words[i].None?;
    }
  }

  lemma DrawStep(words: seq<Option<uint32>>)
    requires |words| > 0 && Gathered(words).Some?
    ensures var n := |words| - 1;
            && Gathered(words[..n]).Some? && words[n].Some?
            && Gathered(words).value == Gathered(words[..n]).value + LE(words[n].value, 4)
  {
    hide LE;
  }

  lemma {:induction false} DrawAt(words: seq<Option<uint32>>, i: nat)
    requires Gathered(words).Some? && i < |words|
    ensures words[i].Some? && Gathered(words).value[4 * i..4 * i + 4] == LE(words[i].value, 4)
    decreases |words|
  {
    hide LE, Gathered;
    var n := |words| - 1;
    DrawStep(words);
    if i < n {
      DrawAt(words[..n], i);
      assert words[..n][i] == words[i];
    }
  }

  /** The image of a set of fields, byte for byte. */
  lemma ImageBytes(f: Fields, prevHash: Digest)
    ensures var b := Image(f, prevHash);
            && b[0..8] == LE(f.timestamp, 8) && b[8..12] == LE(f.counter, 4) && b[12..14] == LE(f.subsecond, 2)
            && b[14..16] == LE(f.temperature, 2) && b[16..18] == LE(f.voltage, 2) && b[18..20] == [0, 0]
            && b[20..24] == LE(f.powerCycles, 4) && b[24..28] == LE(f.lsi, 4) && b[28..32] == [0, 0, 0, 0]
            && b[32..48] == f.entropy && b[48..80] == prevHash
  {
    hide LE;
  }

  /** The layout of a sealed entry. */
  lemma SealedBytes(sha: Hash, body: seq<byte>)
    requires |body| == 80
    ensures var e := Sealed(sha, body);
            && e[..80] == body && e[80..112] == sha(body) && e[112..128] == Zeros(16)
            && (forall i, j :: 0 <= i <= j <= 80 ==> e[i..j] == body[i..j])
  {
    var e := Sealed(sha, body);
    assert e[..80] == body;
    forall i, j | 0 <= i <= j <= 80
      ensures e[i..j] == body[i..j]
    {
      assert e[i..j] == e[..80][i..j];
    }
  }

  lemma PoolSlice(sha: Hash, body: seq<byte>, i: nat)
    requires |body| == 80 && i < 4
    ensures Sealed(sha, body)[32 + 4 * i..36 + 4 * i] == body[32..48][4 * i..4 * i + 4]
  {
    var e, k := Sealed(sha, body), 32 + 4 * i;
    assert e[..80] == body;
    SliceOfSlice(e, 0, 80, k, k + 4);
    SliceOfSlice(body, 32, 48, 4 * i, 4 * i + 4);
  }

  lemma SliceOfSlice(s: seq<byte>, a: nat, b: nat, c: nat, d: nat)
    requires a <= b <= |s| && c <= d <= b - a
    ensures s[a..b][c..d] == s[a + c..a + d]
  {
    var t, u, v := s[a..b], s[a..b][c..d], s[a + c..a + d];
    forall i | 0 <= i < d - c
      ensures u[i] == v[i]
    {
      assert u[i] == t[c + i] == s[a + (c + i)] && v[i] == s[(a + c) + i];
    }
    assert u == v;
  }

  /** What a completed update has written: every byte of the new entry, and the old one moved whole. */
  lemma UpdateWrites(sha: Hash, s: TcState, x: Sample, k: nat)
    requires Update(sha, s, x, k).1 == Some(TcOk)
    ensures var t := Update(sha, s, x, k).0.slots;
            var was, e := s.slots.current, t.current;
            && t.previous == was && t.genesis == s.slots.genesis
            && e[0..8] == LE(if FromLE(was[0..8]) < x.reading then x.reading else FromLE(was[0..8]), 8)
            && e[8..12] == LE((FromLE(was[8..12]) + 1) % 0x1_0000_0000, 4)
            && e[12..14] == LE(x.tick % 0x1_0000, 2)
            && e[14..16] == LE(x.temperature, 2)
            && e[16..18] == LE(x.voltage % 0x1_0000, 2)
            && e[18..20] == [0, 0]
            && e[20..24] == was[20..24]
            && e[24..28] == LE(s.lsi, 4)
            && e[28..32] == [0, 0, 0, 0]
            && (forall i :: 0 <= i < 4 ==> x.words[i].Some? && e[32 + 4 * i..36 + 4 * i] == LE(x.words[i].value, 4))
            && e[48..80] == was[80..112]
            && e[80..112] == sha(e[..80])
            && e[112..128] == Zeros(16)
  {
    hide LE, FromLE, Gathered, Image, Torn, Sealed;
    var was := s.slots.current;
    var f := NextFields(s, x, EntropyOf(x.words).value);
    var b := Image(f, SelfHash(was));
    var e := NextEntry(sha, s, x);
    WholeUpdate(s.slots, e);
    ImageBytes(f, SelfHash(was));
    SealedBytes(sha, b);
    StoreLoad(was[20..24]);
    forall i | 0 <= i < 4
      ensures x.words[i].Some? && e[32 + 4 * i..36 + 4 * i] == LE(x.words[i].value, 4)
    {
      DrawAt(x.words, i);
      PoolSlice(sha, b, i);
    }
  }

  /** How far the two copies of an update have come after `k` bytes. */
  lemma UpdateBytes(s: Slots, e: Slot, k: nat, i: nat)
    requires k <= 256 && i < 128
    ensures var t := Torn(s, e, k);
            && t.previous[i] == (if i < k then s.current[i] else s.previous[i])
            && t.current[i] == (if 128 + i < k then e[i] else s.current[i])
            && t.genesis == s.genesis
  {
  }

  // ---------- Provisioning ----------

  /** Every answer of provisioning; it never logs, and only a completed one puts the device into service. */
  lemma GenesisOutcomes(sha: Hash, s: TcState, factory: uint64, powerCycles: uint32, words: RngWords, k: nat)
    ensures var (t, error) := Genesis(sha, s, factory, powerCycles, words, k);
            var born := s.slots.genesis[80..112] != Zeros(32);
            && (error == Some(HashMismatch) <==> born)
            && (error == Some(RngFail) <==> !born && Starved(words))
            && (error == Some(TcOk) <==> !born && !Starved(words) && k >= 256)
            && (error == None <==> !born && !Starved(words) && k < 256)
            && t.log == s.log && t.lsi == s.lsi && (t.valid <==> error == Some(TcOk) || s.valid)
            && (error != Some(TcOk) && error != None ==> t == s)
  {
    hide Gathered, TornGenesis, GenesisEntry;
    if EntropyOf(words).None? {
      assert exists i :: 0 <= i < |words| && words[i].None?;
    }
  }

  /** What completed provisioning has written. */
  lemma GenesisWrites(sha: Hash, s: TcState, factory: uint64, powerCycles: uint32, words: RngWords, k: nat)
    requires Genesis(sha, s, factory, powerCycles, words, k).1 == Some(TcOk)
    ensures var t := Genesis(sha, s, factory, powerCycles, words, k).0.slots;
            var g := t.genesis;
            && t.current == g && t.previous == s.slots.previous
            && g[0..8] == LE(factory, 8) && g[8..20] == Zeros(12) && g[20..24] == LE(powerCycles, 4)
            && g[24..28] == LE(32000, 4) && g[28..32] == [0, 0, 0, 0]
            && (forall i :: 0 <= i < 4 ==> words[i].Some? && g[32 + 4 * i..36 + 4 * i] == LE(words[i].value, 4))
            && g[48..80] == Zeros(32) && g[80..112] == sha(g[..80]) && g[112..128] == Zeros(16)
  {
    hide LE, Gathered, Image, TornGenesis, Sealed;
    var f := Fields(factory, 0, 0, 0, 0, powerCycles, NOMINAL_LSI, EntropyOf(words).value);
    var b := Image(f, Zeros(HASH_LEN));
    var g := GenesisEntry(sha, factory, powerCycles, EntropyOf(words).value);
    WholeGenesis(s.slots, g);
    ImageBytes(f, Zeros(HASH_LEN));
    SealedBytes(sha, b);
    ZeroFields();
    assert g[8..20] == g[8..12] + g[12..14] + g[14..16] + g[16..18] + g[18..20];
    forall i | 0 <= i < 4
      ensures words[i].Some? && g[32 + 4 * i..36 + 4 * i] == LE(words[i].value, 4)
    {
      DrawAt(words, i);
      PoolSlice(sha, b, i);
    }
  }

  lemma ZeroFields()
    ensures LE(0, 4) == Zeros(4) && LE(0, 2) == Zeros(2)
  {
    assert LE(0, 4) == [0] + LE(0, 3) && LE(0, 3) == [0] + LE(0, 2);
  }

  /** How far the two copies of provisioning have come after `k` bytes. */
  lemma GenesisBytes(s: Slots, g: Slot, k: nat, i: nat)
    requires k <= 256 && i < 128
    ensures var t := TornGenesis(s, g, k);
            && t.genesis[i] == (if i < k then g[i] else s.genesis[i])
            && t.current[i] == (if 128 + i < k then g[i] else s.current[i])
            && t.previous == s.previous
  {
  }

  // ---------- The chain check ----------

  /** Every answer of the chain check. */
  lemma CheckOutcomes(sha: Hash, s: Slots)
    ensures var error := VerifyChain(sha, s);
            var present := s.current[80..112] != Zeros(32);
            var sound := sha(s.current[..80]) == s.current[80..112];
            var alone := s.previous[80..112] == Zeros(32);
            var linked := s.current[48..80] == s.previous[80..112];
            var soundBefore := sha(s.previous[..80]) == s.previous[80..112];
            && (error == NotInitialized <==> !present)
            && (error == ChainBroken <==> present && sound && !alone && !linked)
            && (error == HashMismatch <==> present && (!sound || (!alone && linked && !soundBefore)))
            && (error == TcOk <==> present && sound && (alone || (linked && soundBefore)))
  {
  }

  // ---------- Over whole lives ----------

  /**
   * A device in service refuses a reading exactly when it lies more than five seconds behind the
   * latest of the factory time and all readings it has adopted; it refuses by raising the alarm.
   */
  lemma RefusalsOverLife(sha: Hash, log: seq<Entry>, ops: seq<Op>, x: Sample)
    requires HonestRun(sha, Blank(log), ops)
    ensures var l := Live(sha, Blank(log), ops);
            var m := Do(sha, l, UpdateOp(x));
            l.tc.valid ==>
              && |l.readings| > 0
              && (Update(sha, l.tc, x, 256).1 == Some(Rollback) <==> x.reading + 5 < Latest(l.readings))
              && (x.reading + 5 < Latest(l.readings) ==>
                    && m.tc.slots == l.tc.slots && m.history == l.history
                    && m.tc.log == l.tc.log + [Entry(TimeRollback, (Latest(l.readings) - x.reading) % 0x1_0000_0000),
                                               Entry(PillOffTriggered, 0x02)])
              && (x.reading + 5 >= Latest(l.readings) && !Starved(x.words) ==>
                    && m.history == l.history + [m.tc.slots.current] && m.readings == l.readings + [x.reading]
                    && m.tc.log == l.tc.log)
  {
    hide Live, HonestRun, FromLE, Latest, NextEntry, Torn, Update, Starved;
    var l := Live(sha, Blank(log), ops);
    StoredTime(sha, log, ops);
    UpdateOutcomes(sha, l.tc, x, 256);
  }
}
