/**
 * Power loss inside an update. The two slot copies can be cut after any byte; the next boot then
 * decides. A boot that accepts never accepts a mixture, and the cuts it accepts are exactly known.
 */
module TimechainCrash {
  import opened Bytes
  import opened Timechain

  /** Two different inputs with the same digest. */
  ghost predicate Collide(sha: Hash, x: seq<byte>, y: seq<byte>) {
    x != y && sha(x) == sha(y)
  }

  /** A whole entry: its hash verifies and its unused tail is clear. */
  ghost predicate Whole(sha: Hash, e: Slot) {
    Verified(sha, e) && e[SELF_END..] == Zeros(16)
  }

  /** The regions of the slots after a cut in the second copy. */
  lemma TornCurrent(s: Slots, e: Slot, k: nat)
    requires ENTRY_SIZE <= k <= 2 * ENTRY_SIZE
    requires s.current[SELF_END..] == e[SELF_END..]
    ensures var t := Torn(s, e, k);
            && t.previous == s.current
            && (k <= ENTRY_SIZE + SELF_AT ==> t.current[SELF_AT..] == s.current[SELF_AT..])
            && (k >= ENTRY_SIZE + SELF_AT ==>
                  t.current[..SELF_AT] == e[..SELF_AT] && t.current[SELF_END..] == e[SELF_END..])
            && (k >= ENTRY_SIZE + SELF_END ==> SelfHash(t.current) == SelfHash(e))
  {
    var t := Torn(s, e, k).current;
    if k == ENTRY_SIZE {
      assert t == s.current;
    } else {
      var j := k - ENTRY_SIZE;
      assert t == e[..j] + s.current[j..];
      if j <= SELF_AT {
        assert t[SELF_AT..] == s.current[SELF_AT..];
      }
      if j >= SELF_AT {
        assert t[..SELF_AT] == e[..SELF_AT];
        forall i | SELF_END <= i < ENTRY_SIZE
          ensures t[i] == e[i]
        {
          assert s.current[i] == s.current[SELF_END..][i - SELF_END] == e[SELF_END..][i - SELF_END];
        }
        assert t[SELF_END..] == e[SELF_END..];
      }
      if j >= SELF_END {
        assert SelfHash(t) == SelfHash(e);
      }
    }
  }

  lemma EntrySplit(a: Slot, b: Slot)
    requires a[..SELF_AT] == b[..SELF_AT] && a[SELF_AT..] == b[SELF_AT..]
    ensures a == b
  {
    assert a == a[..SELF_AT] + a[SELF_AT..];
    assert b == b[..SELF_AT] + b[SELF_AT..];
  }

  lemma UpperSplit(a: Slot, b: Slot)
    requires SelfHash(a) == SelfHash(b) && a[SELF_END..] == b[SELF_END..]
    ensures a[SELF_AT..] == b[SELF_AT..]
  {
    assert a[SELF_AT..] == SelfHash(a) + a[SELF_END..];
    assert b[SELF_AT..] == SelfHash(b) + b[SELF_END..];
  }

  /**
   * Wherever the power is cut, a boot that accepts the slots finds the old entry or the new one,
   * whole - unless the torn and the old hashed fields collide.
   */
  lemma SurvivorIsWhole(sha: Hash, s: Slots, e: Slot, k: nat)
    requires k <= 2 * ENTRY_SIZE && Whole(sha, s.current) && Whole(sha, e)
    requires Verified(sha, Torn(s, e, k).current)
    requires !Collide(sha, Hashed(Torn(s, e, k).current), Hashed(s.current))
    ensures Torn(s, e, k).current == s.current || Torn(s, e, k).current == e
  {
    hide Torn;
    var c := Torn(s, e, k).current;
    if k < ENTRY_SIZE {
      FirstCopyKeepsCurrent(s, e, k);
    } else {
      TornCurrent(s, e, k);
      if k <= ENTRY_SIZE + SELF_AT {
        SameUpperHash(c, s.current);
        EntrySplit(c, s.current);
      } else {
        UpperSplit(c, e);
        EntrySplit(c, e);
      }
    }
  }

  lemma FirstCopyKeepsCurrent(s: Slots, e: Slot, k: nat)
    requires k <= ENTRY_SIZE
    ensures Torn(s, e, k).current == s.current
    ensures k <= SELF_AT ==> SelfHash(Torn(s, e, k).previous) == SelfHash(s.previous)
    ensures k >= SELF_END ==> SelfHash(Torn(s, e, k).previous) == SelfHash(s.current)
  {
    var p := Torn(s, e, k).previous;
    if k <= SELF_AT {
      assert SelfHash(p) == SelfHash(s.previous);
    }
    if k >= SELF_END {
      assert SelfHash(p) == SelfHash(s.current);
    }
  }

  lemma SameUpperHash(a: Slot, b: Slot)
    requires a[SELF_AT..] == b[SELF_AT..]
    ensures SelfHash(a) == SelfHash(b)
  {
    assert SelfHash(a) == a[SELF_AT..][..HASH_LEN];
    assert SelfHash(b) == b[SELF_AT..][..HASH_LEN];
  }

  lemma SamePrevHash(a: Slot, b: Slot)
    requires Hashed(a) == Hashed(b)
    ensures PrevHash(a) == PrevHash(b)
  {
    assert PrevHash(a) == Hashed(a)[PREV_AT..];
    assert PrevHash(b) == Hashed(b)[PREV_AT..];
  }

  /** Does the next boot, with the clock still running, accept the slots? */
  predicate Boots(sha: Hash, s: Slots) {
    Exists(s.current) && Verified(sha, s.current) && LinkHolds(s)
  }

  lemma BootsIsInit(sha: Hash, s: TcState)
    ensures Boots(sha, s.slots) <==> Init(sha, s, true).1 == TcOk
    ensures Init(sha, s, true).1 == TcOk ==> Init(sha, s, true).0 == s.(valid := true)
    ensures Init(sha, s, false).1 != TcOk
    ensures forall rtc :: Init(sha, s, rtc).0.slots == s.slots && Init(sha, s, rtc).0.lsi == s.lsi
  {
  }

  /**
   * With `j` bytes of the current hash copied over the previous slot's: the mixture still reads as
   * "never written", or it is the hash that the current entry links to.
   */
  predicate PreviousFits(s: Slots, j: nat)
    requires j <= HASH_LEN
  {
    var now, before := SelfHash(s.current), SelfHash(s.previous);
    || (now[..j] == Zeros(j) && before[j..] == Zeros(HASH_LEN - j))
    || (if Exists(s.previous) then now[..j] == before[..j]
        else PrevHash(s.current) == now[..j] + Zeros(HASH_LEN - j))
  }

  /** Which cuts of an update the next boot accepts, read off the slots before it and the entry it writes. */
  predicate Survives(s: Slots, e: Slot, k: nat)
    requires k <= 2 * ENTRY_SIZE
  {
    if k <= SELF_AT then true
    else if k < SELF_END then PreviousFits(s, k - SELF_AT)
    else if k < ENTRY_SIZE + SELF_AT then
      var j := if k <= ENTRY_SIZE then 0 else k - ENTRY_SIZE;
      PrevHash(s.current) == SelfHash(s.current) && e[..j] == s.current[..j]
    else if k < ENTRY_SIZE + SELF_END then
      var j := k - (ENTRY_SIZE + SELF_AT);
      SelfHash(s.current)[j..] == SelfHash(e)[j..]
    else true
  }

  lemma TornPreviousHash(s: Slots, e: Slot, k: nat)
    requires SELF_AT <= k <= SELF_END
    ensures SelfHash(Torn(s, e, k).previous) == SelfHash(s.current)[..k - SELF_AT] + SelfHash(s.previous)[k - SELF_AT..]
  {
  }

  lemma TornCurrentHash(s: Slots, e: Slot, k: nat)
    requires ENTRY_SIZE + SELF_AT <= k <= ENTRY_SIZE + SELF_END
    ensures var j := k - (ENTRY_SIZE + SELF_AT);
            SelfHash(Torn(s, e, k).current) == SelfHash(e)[..j] + SelfHash(s.current)[j..]
  {
  }

  lemma HalvesMatch(a: Digest, b: Digest, j: nat)
    requires j <= HASH_LEN
    ensures a == b <==> a[..j] == b[..j] && a[j..] == b[j..]
  {
    assert a == a[..j] + a[j..] && b == b[..j] + b[j..];
  }

  /** Whether the half-copied previous hash still fits. */
  lemma MixedLink(s: Slots, e: Slot, k: nat)
    requires SELF_AT < k < SELF_END && LinkHolds(s)
    ensures LinkHolds(Torn(s, e, k)) <==> PreviousFits(s, k - SELF_AT)
  {
    hide Torn, SelfHash, PrevHash;
    var j := k - SELF_AT;
    var now, before := SelfHash(s.current), SelfHash(s.previous);
    var mixed: Digest := now[..j] + before[j..];
    FirstCopyKeepsCurrent(s, e, k);
    TornPreviousHash(s, e, k);
    assert mixed[..j] == now[..j] && mixed[j..] == before[j..];
    assert Zeros(HASH_LEN)[..j] == Zeros(j) && Zeros(HASH_LEN)[j..] == Zeros(HASH_LEN - j);
    HalvesMatch(mixed, Zeros(HASH_LEN), j);
    HalvesMatch(mixed, before, j);
    if !Exists(s.previous) {
      assert mixed == now[..j] + Zeros(HASH_LEN - j);
    }
  }

  /**
   * Once the previous slot holds the current hash, only the old entry itself could still pass, and
   * only if it links to itself.
   */
  lemma MiddleCut(sha: Hash, s: Slots, e: Slot, k: nat)
    requires SELF_END <= k < ENTRY_SIZE + SELF_AT && Boots(sha, s) && Whole(sha, s.current) && Whole(sha, e)
    requires !Collide(sha, Hashed(Torn(s, e, k).current), Hashed(s.current))
    ensures Boots(sha, Torn(s, e, k)) <==> Survives(s, e, k)
  {
    hide Torn, SelfHash, PrevHash, Exists;
    var t := Torn(s, e, k);
    if k <= ENTRY_SIZE {
      FirstCopyKeepsCurrent(s, e, k);
      SameHashExists(t.previous, s.current);
    } else {
      var j := k - ENTRY_SIZE;
      TornCurrent(s, e, k);
      SameUpperHash(t.current, s.current);
      TornPrefix(s, e, k);
      if Verified(sha, t.current) {
        SamePrevHash(t.current, s.current);
        assert Hashed(t.current)[..j] == t.current[..j] && Hashed(s.current)[..j] == s.current[..j];
      }
    }
  }

  lemma SameHashExists(a: Slot, b: Slot)
    requires SelfHash(a) == SelfHash(b)
    ensures Exists(a) == Exists(b)
  {
  }

  lemma TornPrefix(s: Slots, e: Slot, k: nat)
    requires ENTRY_SIZE < k <= 2 * ENTRY_SIZE
    ensures Torn(s, e, k).current[..k - ENTRY_SIZE] == e[..k - ENTRY_SIZE]
    ensures e[..k - ENTRY_SIZE] == s.current[..k - ENTRY_SIZE] ==> Torn(s, e, k).current == s.current
  {
    var j := k - ENTRY_SIZE;
    assert s.current == s.current[..j] + s.current[j..];
  }

  /**
   * In the second hash band the new fields are complete; the boot accepts when the rest of the old
   * hash happens to be the new one's.
   */
  lemma LateCut(sha: Hash, s: Slots, e: Slot, k: nat)
    requires ENTRY_SIZE + SELF_AT <= k <= 2 * ENTRY_SIZE && Whole(sha, s.current) && Whole(sha, e)
    requires Exists(e) && PrevHash(e) == SelfHash(s.current)
    ensures Boots(sha, Torn(s, e, k)) <==> Survives(s, e, k)
  {
    hide Torn, SelfHash, PrevHash;
    var t := Torn(s, e, k);
    TornCurrent(s, e, k);
    SamePrevHash(t.current, e);
    if k < ENTRY_SIZE + SELF_END {
      var j := k - (ENTRY_SIZE + SELF_AT);
      TornCurrentHash(s, e, k);
      assert SelfHash(t.current)[..j] == SelfHash(e)[..j] && SelfHash(t.current)[j..] == SelfHash(s.current)[j..];
      HalvesMatch(SelfHash(t.current), SelfHash(e), j);
    }
  }

  /**
   * Exactly which power cuts the next boot accepts: those before the old hash starts to be copied
   * over the previous slot's, those after which the new entry's hash is complete, and, inside the
   * two hashes, those where the bytes not yet copied happen to be the right ones already.
   */
  lemma BootsExactly(sha: Hash, s: Slots, e: Slot, k: nat)
    requires k <= 2 * ENTRY_SIZE && Boots(sha, s) && Whole(sha, s.current)
    requires Whole(sha, e) && Exists(e) && PrevHash(e) == SelfHash(s.current)
    requires !Collide(sha, Hashed(Torn(s, e, k).current), Hashed(s.current))
    ensures Boots(sha, Torn(s, e, k)) <==> Survives(s, e, k)
  {
    hide Torn, SelfHash, PrevHash, Whole, Exists, Verified;
    if k <= SELF_AT {
      FirstCopyKeepsCurrent(s, e, k);
      SameHashExists(Torn(s, e, k).previous, s.previous);
    } else if k < SELF_END {
      FirstCopyKeepsCurrent(s, e, k);
      MixedLink(s, e, k);
    } else if k < ENTRY_SIZE + SELF_AT {
      MiddleCut(sha, s, e, k);
    } else {
      LateCut(sha, s, e, k);
    }
  }

  /** A cut between the two copies is refused as a broken chain, unless the current entry links to itself. */
  lemma CutBetweenCopiesRefused(sha: Hash, s: Slots, e: Slot, t: TcState)
    requires Boots(sha, s) && t.slots == Torn(s, e, ENTRY_SIZE)
    ensures Init(sha, t, true).1 == if PrevHash(s.current) == SelfHash(s.current) then TcOk else ChainBroken
  {
    FirstCopyKeepsCurrent(s, e, ENTRY_SIZE);
  }

  // ---------- The chain check after a survived cut ----------

  /** Which survived cuts the chain check passes too, read off the slots before the update. */
  predicate ChecksOut(s: Slots, k: nat)
    requires k <= 2 * ENTRY_SIZE
  {
    if k <= SELF_AT then Exists(s.previous) ==> s.current[..k] == s.previous[..k]
    else if k < SELF_END then
      var j := k - SELF_AT;
      || (SelfHash(s.current)[..j] == Zeros(j) && SelfHash(s.previous)[j..] == Zeros(HASH_LEN - j))
      || PrevHash(s.current) == SelfHash(s.current)
    else true
  }

  /** What the first copy has put over the previous slot's hashed fields and hash. */
  lemma TornPreviousFields(s: Slots, e: Slot, k: nat)
    requires k <= 2 * ENTRY_SIZE
    ensures k <= SELF_AT ==>
              (Hashed(Torn(s, e, k).previous) == Hashed(s.previous) <==> s.current[..k] == s.previous[..k])
    ensures k >= SELF_AT ==> Hashed(Torn(s, e, k).previous) == Hashed(s.current)
    ensures k >= SELF_END ==> SelfHash(Torn(s, e, k).previous) == SelfHash(s.current)
  {
    var t := Torn(s, e, k).previous;
    if k <= SELF_AT {
      assert Hashed(t)[..k] == s.current[..k] && Hashed(s.previous)[..k] == s.previous[..k];
      assert Hashed(t) == s.current[..k] + s.previous[k..SELF_AT];
      assert Hashed(s.previous) == s.previous[..k] + s.previous[k..SELF_AT];
    } else {
      assert Hashed(t) == Hashed(s.current);
      if k >= SELF_END {
        assert SelfHash(t) == SelfHash(s.current);
      }
    }
  }

  /**
   * In the previous slot's hash band, the check passes exactly when the mixture reads as absent or
   * the current entry links to itself.
   */
  lemma MixedCheck(sha: Hash, s: Slots, e: Slot, k: nat)
    requires SELF_AT < k < SELF_END && Boots(sha, s) && LinkHolds(Torn(s, e, k))
    ensures VerifyChain(sha, Torn(s, e, k)) == if ChecksOut(s, k) then TcOk else HashMismatch
  {
    hide Torn, SelfHash, PrevHash, Hashed;
    var j := k - SELF_AT;
    var t := Torn(s, e, k);
    var now, before := SelfHash(s.current), SelfHash(s.previous);
    var mixed: Digest := now[..j] + before[j..];
    FirstCopyKeepsCurrent(s, e, k);
    TornPreviousHash(s, e, k);
    TornPreviousFields(s, e, k);
    assert mixed[..j] == now[..j] && mixed[j..] == before[j..];
    assert Zeros(HASH_LEN)[..j] == Zeros(j) && Zeros(HASH_LEN)[j..] == Zeros(HASH_LEN - j);
    HalvesMatch(mixed, Zeros(HASH_LEN), j);
  }

  /**
   * After a cut that the boot survives, the chain check agrees with the boot or reports a hash
   * mismatch in the torn previous slot, unless that slot's hashed fields collide with the old ones.
   */
  lemma CheckAfterCut(sha: Hash, s: Slots, e: Slot, k: nat)
    requires k <= 2 * ENTRY_SIZE && VerifyChain(sha, s) == TcOk && Boots(sha, Torn(s, e, k))
    requires !Collide(sha, Hashed(Torn(s, e, k).previous), Hashed(s.previous))
    ensures VerifyChain(sha, Torn(s, e, k)) == if ChecksOut(s, k) then TcOk else HashMismatch
  {
    hide Torn, SelfHash, PrevHash, Hashed;
    TornPreviousFields(s, e, k);
    if k <= SELF_AT {
      FirstCopyKeepsCurrent(s, e, k);
      SameHashExists(Torn(s, e, k).previous, s.previous);
    } else if k < SELF_END {
      MixedCheck(sha, s, e, k);
    }
  }

  // ---------- Power loss inside provisioning ----------

  /** A provisioned device that is out of service, with slots that no boot accepts. */
  ghost predicate Dead(sha: Hash, s: TcState) {
    Exists(s.slots.genesis) && !s.valid && !Boots(sha, s.slots)
  }

  /** Which cuts of provisioning leave a device that can still enter service, read off the genesis entry. */
  predicate BirthSurvives(g: Slot, k: nat)
    requires k <= 2 * ENTRY_SIZE
  {
    if k <= SELF_AT then true
    else if k < SELF_END then SelfHash(g)[..k - SELF_AT] == Zeros(k - SELF_AT)
    else if k < ENTRY_SIZE + SELF_AT then false
    else if k < ENTRY_SIZE + SELF_END then
      var j := k - (ENTRY_SIZE + SELF_AT);
      SelfHash(g)[j..] == Zeros(HASH_LEN - j)
    else true
  }

  /**
   * In the first copy, nothing boots; the device still counts as never provisioned exactly when no
   * hash byte shows yet.
   */
  lemma EarlyBirthCut(sha: Hash, s: Slots, g: Slot, k: nat)
    requires k <= ENTRY_SIZE && Exists(g) && s.current == Zeros(128) && !Exists(s.genesis)
    ensures var t := TornGenesis(s, g, k);
            && t.current == s.current && t.previous == s.previous && !Boots(sha, t)
            && (Exists(t.genesis) <==> !BirthSurvives(g, k))
  {
    hide Verified, LinkHolds;
    var t := TornGenesis(s, g, k).genesis;
    assert SelfHash(Zeros(128)) == Zeros(HASH_LEN);
    if k <= SELF_AT {
      assert SelfHash(t) == SelfHash(s.genesis);
    } else if k < SELF_END {
      var j := k - SELF_AT;
      assert SelfHash(t) == SelfHash(g)[..j] + SelfHash(s.genesis)[j..];
      assert SelfHash(t)[..j] == SelfHash(g)[..j] && SelfHash(t)[j..] == Zeros(HASH_LEN)[j..];
      HalvesMatch(SelfHash(t), Zeros(HASH_LEN), j);
      assert Zeros(HASH_LEN)[..j] == Zeros(j);
    } else {
      assert SelfHash(t) == SelfHash(g);
    }
  }

  /** A slot copied up to byte `n` over zeros. */
  function Partial(g: Slot, n: nat): Slot
    requires n <= ENTRY_SIZE
  {
    g[..n] + Zeros(ENTRY_SIZE - n)
  }

  lemma PartialHash(g: Slot, n: nat)
    requires n <= ENTRY_SIZE
    ensures n <= SELF_AT ==> SelfHash(Partial(g, n)) == Zeros(HASH_LEN)
    ensures n >= SELF_AT ==> Hashed(Partial(g, n)) == Hashed(g)
    ensures SELF_AT <= n < SELF_END ==>
              SelfHash(Partial(g, n))[..n - SELF_AT] == SelfHash(g)[..n - SELF_AT] &&
              SelfHash(Partial(g, n))[n - SELF_AT..] == Zeros(SELF_END - n)
    ensures n >= SELF_END ==> SelfHash(Partial(g, n)) == SelfHash(g)
  {
    var t := Partial(g, n);
    assert forall i :: 0 <= i < ENTRY_SIZE ==> t[i] == if i < n then g[i] else 0;
    if n >= SELF_AT {
      assert Hashed(t) == Hashed(g);
      if n < SELF_END {
        var j := n - SELF_AT;
        assert SelfHash(t)[..j] == SelfHash(g)[..j];
        assert SelfHash(t)[j..] == Zeros(SELF_END - n);
      } else {
        assert SelfHash(t) == SelfHash(g);
      }
    } else {
      assert SelfHash(t) == Zeros(HASH_LEN);
    }
  }

  lemma PartialTail(g: Slot, n: nat)
    requires n <= ENTRY_SIZE && g[SELF_END..] == Zeros(16)
    ensures Partial(g, n)[SELF_END..] == g[SELF_END..]
  {
    forall i | SELF_END <= i < ENTRY_SIZE
      ensures Partial(g, n)[i] == g[i]
    {
      assert g[i] == g[SELF_END..][i - SELF_END] == 0;
    }
    assert Partial(g, n)[SELF_END..] == g[SELF_END..];
  }

  /**
   * In the second copy, the device counts as provisioned, and boots exactly when its current entry
   * is already whole.
   */
  lemma LateBirthCut(sha: Hash, s: Slots, g: Slot, k: nat)
    requires ENTRY_SIZE < k <= 2 * ENTRY_SIZE && Whole(sha, g) && Exists(g)
    requires s.current == Zeros(128) && !Exists(s.previous)
    ensures var t := TornGenesis(s, g, k);
            && t.genesis == g && t.previous == s.previous
            && (Boots(sha, t) <==> BirthSurvives(g, k))
            && (Boots(sha, t) ==> t.current == g)
  {
    hide SelfHash, Hashed, Partial;
    var n := k - ENTRY_SIZE;
    var t := TornGenesis(s, g, k).current;
    assert t == Partial(g, n) by { TornIsPartial(s, g, k); }
    PartialHash(g, n);
    PartialTail(g, n);
    if SELF_AT <= n < SELF_END {
      HalvesMatch(SelfHash(t), SelfHash(g), n - SELF_AT);
    }
    if SelfHash(t) == SelfHash(g) && n >= SELF_AT {
      UpperSplit(t, g);
      HashedSplit(t, g);
    }
  }

  lemma TornIsPartial(s: Slots, g: Slot, k: nat)
    requires ENTRY_SIZE < k <= 2 * ENTRY_SIZE && s.current == Zeros(128)
    ensures TornGenesis(s, g, k).current == Partial(g, k - ENTRY_SIZE)
  {
  }

  lemma HashedSplit(a: Slot, b: Slot)
    requires Hashed(a) == Hashed(b) && a[SELF_AT..] == b[SELF_AT..]
    ensures a == b
  {
    EntrySplit(a, b);
  }

  // ---------- After an update that completes ----------

  lemma NextIsWhole(sha: Hash, s: TcState, x: Sample)
    requires EntropyOf(x.words).Some? && Exists(NextEntry(sha, s, x))
    ensures var e := NextEntry(sha, s, x);
            && Whole(sha, e) && Exists(e)
            && PrevHash(e) == SelfHash(s.slots.current)
            && Timestamp(e) == Later(Timestamp(s.slots.current), x.reading)
            && Counter(e) == (Counter(s.slots.current) + 1) % WRAP
  {
    hide Image, Gathered, Timestamp, Counter;
    var f := NextFields(s, x, EntropyOf(x.words).value);
    var b := Image(f, SelfHash(s.slots.current));
    SealedParts(sha, b);
    SealedFields(sha, f, SelfHash(s.slots.current));
  }

  lemma WholeUpdate(s: Slots, e: Slot)
    ensures Torn(s, e, 2 * ENTRY_SIZE) == Slots(e, s.current, s.genesis)
  {
    assert e[..ENTRY_SIZE] + s.current[ENTRY_SIZE..] == e;
  }

  /**
   * One complete update over a whole current entry restores the full two-slot chain, whatever the
   * previous slot held.
   */
  lemma UpdateRestoresChain(sha: Hash, s: TcState, x: Sample)
    requires Accepts(s, x) && Exists(NextEntry(sha, s, x)) && Whole(sha, s.slots.current) && Exists(s.slots.current)
    ensures var (t, error) := Update(sha, s, x, 2 * ENTRY_SIZE);
            && error == Some(TcOk)
            && VerifyChain(sha, t.slots) == TcOk
            && Init(sha, Reset(t), true).1 == TcOk
            && t.slots == Slots(NextEntry(sha, s, x), s.slots.current, s.slots.genesis)
  {
    hide NextEntry, Torn;
    NextIsWhole(sha, s, x);
    WholeUpdate(s.slots, NextEntry(sha, s, x));
  }

  /**
   * An update that does not succeed leaves every slot as it was; it is refused as a rollback exactly
   * when the reading is too old.
   */
  lemma FailedUpdateKeepsSlots(sha: Hash, s: TcState, x: Sample, k: nat)
    ensures Update(sha, s, x, k).1.Some? && Update(sha, s, x, k).1 != Some(TcOk) ==>
              Update(sha, s, x, k).0.slots == s.slots && Update(sha, s, x, k).0.valid == s.valid
    ensures Update(sha, s, x, k).1 == Some(Rollback) <==> TooFarBack(s, x.reading)
    ensures Update(sha, s, x, k).1 == Some(TcOk) <==> Accepts(s, x) && k >= 2 * ENTRY_SIZE
    ensures Update(sha, s, x, k).1 == None <==> Accepts(s, x) && k < 2 * ENTRY_SIZE
  {
    hide NextEntry, Gathered;
  }
}
