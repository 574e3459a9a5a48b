/** What the invariant gives over whole lives, and how the head entry commits to everything before it. */
module TimechainHistory {
  import opened Bytes
  import opened Audit
  import opened Timechain
  import opened TimechainCrash
  import opened TimechainRuns

  // ---------- Anti-rollback ----------

  lemma LatestGrows(readings: seq<uint64>, i: nat, j: nat)
    requires 0 < i <= j <= |readings|
    ensures Latest(readings[..i]) <= Latest(readings[..j])
  {
    var t := Latest(readings[..i]);
    var n :| 0 <= n < i && readings[..i][n] == t;
    assert readings[..j][n] == t;
  }

  /** The device's time is the latest of the factory time and all adopted readings, its counter their number. */
  lemma StoredTime(sha: Hash, log: seq<Entry>, ops: seq<Op>)
    requires HonestRun(sha, Blank(log), ops)
    ensures var l := Live(sha, Blank(log), ops);
            l.tc.valid ==>
              && |l.readings| == |l.history| > 0
              && l.tc.slots.current == l.history[|l.history| - 1]
              && l.tc.slots.genesis == l.history[0]
              && Timestamp(l.tc.slots.current) == Latest(l.readings)
              && Counter(l.tc.slots.current) == (|l.readings| - 1) % WRAP
  {
    hide Live, HonestRun, Timestamp, Counter, Whole, Exists;
    var l := Live(sha, Blank(log), ops);
    BlankIsUnprovisioned(log);
    LifeKeeps(sha, Blank(log), ops);
    if l.tc.valid {
      assert EntryAt(sha, l.history, l.readings, |l.history| - 1);
      assert l.readings[..|l.readings| - 1 + 1] == l.readings;
    }
  }

  lemma DoExtends(sha: Hash, l: Life, op: Op)
    requires Exists(l.tc.slots.genesis)
    ensures l.history <= Do(sha, l, op).history && l.readings <= Do(sha, l, op).readings
  {
    hide Update, Init, Exists;
  }

  /** Operations only ever extend a provisioned device's history. */
  lemma HistoryGrows(sha: Hash, l: Life, op: Op)
    requires Provisioned(sha, l) && Honest(sha, l, op)
    ensures Provisioned(sha, Do(sha, l, op))
    ensures l.history <= Do(sha, l, op).history && l.readings <= Do(sha, l, op).readings
  {
    hide Do, Honest, Chain, PendingOk;
    GenesisSlotExists(sha, l);
    DoExtends(sha, l, op);
    StepKeeps(sha, l, op);
  }

  lemma {:induction false} HistoryOnlyGrows(sha: Hash, l: Life, ops: seq<Op>)
    requires Provisioned(sha, l) && HonestRun(sha, l, ops)
    ensures Provisioned(sha, Live(sha, l, ops))
    ensures l.history <= Live(sha, l, ops).history && l.readings <= Live(sha, l, ops).readings
    decreases |ops|
  {
    hide Provisioned, Do, Honest;
    if |ops| > 0 {
      HistoryGrows(sha, l, ops[0]);
      HistoryOnlyGrows(sha, Do(sha, l, ops[0]), ops[1..]);
    }
  }

  /** Along a chain, time never falls and the counter counts. */
  lemma ChainOrder(sha: Hash, h: seq<Slot>, readings: seq<uint64>, i: nat, j: nat)
    requires Chain(sha, h, readings) && i <= j < |h|
    ensures Timestamp(h[i]) <= Timestamp(h[j])
    ensures Counter(h[j]) == (Counter(h[i]) + (j - i)) % WRAP
  {
    hide Timestamp, Counter, Whole, Exists, PrevHash, SelfHash, Latest;
    assert EntryAt(sha, h, readings, i) && EntryAt(sha, h, readings, j);
    LatestGrows(readings, i + 1, j + 1);
    CounterDistance(i, j);
  }

  lemma CounterDistance(i: nat, j: nat)
    requires i <= j
    ensures j % WRAP == (i % WRAP + (j - i)) % WRAP
  {
  }

  /**
   * Through updates, refusals, reboots and power cuts, a working device's time never goes back and
   * genesis never changes.
   */
  lemma TimeNeverGoesBack(sha: Hash, l: Life, ops: seq<Op>)
    requires Provisioned(sha, l) && l.tc.valid && HonestRun(sha, l, ops)
    ensures var m := Live(sha, l, ops);
            && m.tc.slots.genesis == l.tc.slots.genesis
            && (m.tc.valid ==>
                  && Timestamp(l.tc.slots.current) <= Timestamp(m.tc.slots.current)
                  && Counter(m.tc.slots.current) == (Counter(l.tc.slots.current) + (|m.history| - |l.history|)) % WRAP)
  {
    hide Live, HonestRun, Timestamp, Counter, Chain, Extends, Torn, Collide;
    var m := Live(sha, l, ops);
    HistoryOnlyGrows(sha, l, ops);
    assert m.history[0] == l.history[0];
    if m.tc.valid {
      var i, j := |l.history| - 1, |m.history| - 1;
      assert m.history[i] == l.history[i];
      ChainOrder(sha, m.history, m.readings, i, j);
    }
  }

  // ---------- Runs without power cuts ----------

  predicate NoCuts(ops: seq<Op>) {
    forall i :: 0 <= i < |ops| ==> !ops[i].CutOp? && !ops[i].GenesisCutOp?
  }

  lemma {:induction false} UncutStaysWhole(sha: Hash, l: Life, ops: seq<Op>)
    requires NoCuts(ops) && l.pending.None? && !l.torn
    ensures Live(sha, l, ops).pending.None? && !Live(sha, l, ops).torn
    decreases |ops|
  {
    hide Init, Update, Genesis;
    if |ops| > 0 {
      assert !ops[0].CutOp? && !ops[0].GenesisCutOp?;
      UncutStaysWhole(sha, Do(sha, l, ops[0]), ops[1..]);
    }
  }

  /** The two slots of a settled, untorn device pass both the chain check and the next boot. */
  lemma WholeSlotsPass(sha: Hash, l: Life)
    requires Provisioned(sha, l) && l.pending.None? && !l.torn
    ensures VerifyChain(sha, l.tc.slots) == TcOk
    ensures Init(sha, Reset(l.tc), true).1 == TcOk
  {
    hide Timestamp, Counter;
    var n := |l.history|;
    assert EntryAt(sha, l.history, l.readings, n - 1);
    if n == 1 {
      assert !Exists(Zeros(128));
    } else {
      assert EntryAt(sha, l.history, l.readings, n - 2);
    }
  }

  /**
   * From zeroed memory, after any operations without a power cut: once provisioned, current and
   * previous are the last two entries, genesis is the first, and chain check and boot accept them.
   */
  lemma UncutRun(sha: Hash, log: seq<Entry>, ops: seq<Op>)
    requires HonestRun(sha, Blank(log), ops) && NoCuts(ops)
    ensures var l := Live(sha, Blank(log), ops);
            |l.history| > 0 ==>
              && l.tc.slots == Slots(l.history[|l.history| - 1],
                                     if |l.history| == 1 then Zeros(128) else l.history[|l.history| - 2],
                                     l.history[0])
              && VerifyChain(sha, l.tc.slots) == TcOk
              && Init(sha, Reset(l.tc), true).1 == TcOk
  {
    hide Live, HonestRun, NoCuts, VerifyChain, Init, Chain;
    UncutStaysWhole(sha, Blank(log), ops);
    BlankIsUnprovisioned(log);
    LifeKeeps(sha, Blank(log), ops);
    var l := Live(sha, Blank(log), ops);
    if |l.history| > 0 {
      WholeSlotsPass(sha, l);
    }
  }

  // ---------- The head commits to the history ----------

  /** Sealed, linked entries that start from a zero link. */
  ghost predicate Linked(sha: Hash, h: seq<Slot>) {
    && |h| > 0
    && (forall i :: 0 <= i < |h| ==> Verified(sha, h[i]))
    && PrevHash(h[0]) == Zeros(HASH_LEN)
    && forall i :: 1 <= i < |h| ==> PrevHash(h[i]) == SelfHash(h[i - 1])
  }

  ghost predicate SameHashed(a: seq<Slot>, b: seq<Slot>) {
    |a| == |b| && forall i :: 0 <= i < |a| ==> Hashed(a[i]) == Hashed(b[i])
  }

  /** Two entries of the histories have different hashed fields with one digest. */
  ghost predicate HasCollision(sha: Hash, a: seq<Slot>, b: seq<Slot>) {
    exists i, j :: 0 <= i < |a| && 0 <= j < |b| && Collide(sha, Hashed(a[i]), Hashed(b[j]))
  }

  /** An entry's hashed fields have the all-zero digest. */
  ghost predicate HasZeroDigest(sha: Hash, h: seq<Slot>) {
    exists i :: 0 <= i < |h| && sha(Hashed(h[i])) == Zeros(HASH_LEN)
  }

  lemma HistoryIsLinked(sha: Hash, l: Life)
    requires Provisioned(sha, l)
    ensures Linked(sha, l.history) && !HasZeroDigest(sha, l.history)
  {
    hide Timestamp, Counter;
    assert EntryAt(sha, l.history, l.readings, 0);
    forall i | 0 <= i < |l.history|
      ensures Verified(sha, l.history[i]) && sha(Hashed(l.history[i])) != Zeros(HASH_LEN)
    {
      assert EntryAt(sha, l.history, l.readings, i);
    }
    forall i | 1 <= i < |l.history|
      ensures PrevHash(l.history[i]) == SelfHash(l.history[i - 1])
    {
      assert EntryAt(sha, l.history, l.readings, i);
    }
  }

  lemma LinkedPrefix(sha: Hash, h: seq<Slot>)
    requires Linked(sha, h) && |h| > 1
    ensures Linked(sha, h[..|h| - 1])
  {
  }

  /**
   * Two histories with the same head hash agree on the hashed fields at every position back to
   * genesis, or two of their entries collide, or one of them has the all-zero digest.
   */
  lemma {:induction false} HeadCommits(sha: Hash, a: seq<Slot>, b: seq<Slot>)
    requires Linked(sha, a) && Linked(sha, b)
    requires SelfHash(Last(a)) == SelfHash(Last(b))
    ensures SameHashed(a, b) || HasCollision(sha, a, b) || HasZeroDigest(sha, a) || HasZeroDigest(sha, b)
    decreases |a|
  {
    hide Hashed, SelfHash, PrevHash;
    var m, n := |a| - 1, |b| - 1;
    if Hashed(a[m]) != Hashed(b[n]) {
      assert Collide(sha, Hashed(a[m]), Hashed(b[n]));
    } else {
      SamePrevHash(a[m], b[n]);
      if m == 0 && n > 0 {
        assert sha(Hashed(b[n - 1])) == Zeros(HASH_LEN);
      } else if n == 0 && m > 0 {
        assert sha(Hashed(a[m - 1])) == Zeros(HASH_LEN);
      } else if m > 0 {
        LinkedPrefix(sha, a);
        LinkedPrefix(sha, b);
        HeadCommits(sha, a[..m], b[..n]);
        Shorten(sha, a, b);
      }
    }
  }

  /** What is found in the prefixes holds in the whole histories. */
  lemma Shorten(sha: Hash, a: seq<Slot>, b: seq<Slot>)
    requires |a| > 1 && |b| > 1 && Hashed(Last(a)) == Hashed(Last(b))
    ensures SameHashed(a[..|a| - 1], b[..|b| - 1]) ==> SameHashed(a, b)
    ensures HasCollision(sha, a[..|a| - 1], b[..|b| - 1]) ==> HasCollision(sha, a, b)
    ensures HasZeroDigest(sha, a[..|a| - 1]) ==> HasZeroDigest(sha, a)
    ensures HasZeroDigest(sha, b[..|b| - 1]) ==> HasZeroDigest(sha, b)
  {
    hide Hashed;
    var p, q := a[..|a| - 1], b[..|b| - 1];
    if SameHashed(p, q) {
      forall i | 0 <= i < |a|
        ensures Hashed(a[i]) == Hashed(b[i])
      {
        if i < |p| {
          assert p[i] == a[i] && q[i] == b[i];
        }
      }
    }
    if HasCollision(sha, p, q) {
      var i, j :| 0 <= i < |p| && 0 <= j < |q| && Collide(sha, Hashed(p[i]), Hashed(q[j]));
      assert Collide(sha, Hashed(a[i]), Hashed(b[j]));
    }
  }
}
