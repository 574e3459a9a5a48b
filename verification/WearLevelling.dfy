/**
 * The wear-levelled store's sector choice: take the first least-erased of eight sectors. The
 * greedy choice has a closed form, and no other choice keeps the most-erased sector lower.
 */
module WearLevelling {
  import opened Bytes

  const SECTORS: nat := 8
  type Sector = i: nat | i < SECTORS

  /** The store's context: erase counts are 32-bit and wrap. */
  datatype Wear = Wear(generation: uint32, activeSector: Sector, counts: seq<uint32>) {
    predicate Valid() {
      |counts| == SECTORS
    }
  }

  const FRESH: Wear := Wear(0, 0, [0, 0, 0, 0, 0, 0, 0, 0])

  function Incremented(x: uint32): uint32 {
    (x + 1) % WRAP
  }

  /** `i` is a least-erased sector, and the first one. */
  ghost predicate IsFirstLeast(counts: seq<nat>, i: nat) {
    && i < |counts|
    && (forall j :: 0 <= j < |counts| ==> counts[i] <= counts[j])
    && (forall j :: 0 <= j < i ==> counts[i] < counts[j])
  }

  /** The scan over the first `n` sectors. */
  function Scan(counts: seq<nat>, n: nat): (i: nat)
    requires 0 < n <= |counts|
    ensures i < n
    ensures forall j :: 0 <= j < n ==> counts[i] <= counts[j]
    ensures forall j :: 0 <= j < i ==> counts[i] < counts[j]
    decreases n
  {
    if n == 1 then 0
    else
      var i := Scan(counts, n - 1);
      if counts[n - 1] < counts[i] then n - 1 else i
  }

  function FirstLeast(counts: seq<nat>): (i: nat)
    requires |counts| > 0
    ensures i < |counts|
    ensures IsFirstLeast(counts, i)
  {
    var i := Scan(counts, |counts|);
    assert forall j :: 0 <= j < |counts| ==> counts[i] <= counts[j];
    assert forall j :: 0 <= j < i ==> counts[i] < counts[j];
    i
  }

  lemma FirstLeastUnique(counts: seq<nat>, i: nat, j: nat)
    requires IsFirstLeast(counts, i) && IsFirstLeast(counts, j)
    ensures i == j
  {
    assert counts[i] <= counts[j] && counts[j] <= counts[i];
  }

  /** One store. */
  function Store(w: Wear): (w': Wear)
    requires w.Valid()
    ensures w'.Valid()
  {
    var t := FirstLeast(w.counts);
    Wear(Incremented(w.generation), t, w.counts[t := Incremented(w.counts[t])])
  }

  function Stores(w: Wear, n: nat): (w': Wear)
    requires w.Valid()
    ensures w'.Valid()
    decreases n
  {
    if n == 0 then w else Store(Stores(w, n - 1))
  }

  // ---------- Totals ----------

  function Sum(s: seq<nat>): nat
    decreases |s|
  {
    if |s| == 0 then 0 else s[0] + Sum(s[1..])
  }

  function Max(s: seq<nat>): (m: nat)
    requires |s| > 0
    ensures m in s
    ensures forall i :: 0 <= i < |s| ==> s[i] <= m
    decreases |s|
  {
    if |s| == 1 then s[0]
    else
      var m := Max(s[1..]);
      assert forall i :: 1 <= i < |s| ==> s[i] == s[1..][i - 1];
      if s[0] < m then m else s[0]
  }

  function Larger(a: nat, b: nat): nat {
    if a < b then b else a
  }

  function CeilEighth(n: nat): nat {
    (n + 7) / 8
  }

  lemma {:induction false} SumUpdate(s: seq<nat>, i: nat, v: nat)
    requires i < |s|
    ensures Sum(s[i := v]) + s[i] == Sum(s) + v
    decreases |s|
  {
    if i == 0 {
      assert s[i := v][1..] == s[1..];
    } else {
      assert s[i := v][1..] == s[1..][i - 1 := v];
      SumUpdate(s[1..], i - 1, v);
    }
  }

  lemma {:induction false} SumBound(s: seq<nat>, m: nat)
    requires forall i :: 0 <= i < |s| ==> s[i] <= m
    ensures Sum(s) <= |s| * m
    ensures Sum(s) == |s| * m ==> forall i :: 0 <= i < |s| ==> s[i] == m
    decreases |s|
  {
    if |s| > 0 {
      assert forall i :: 0 <= i < |s[1..]| ==> s[1..][i] == s[i + 1];
      SumBound(s[1..], m);
      assert |s| * m == m + |s[1..]| * m;
      if Sum(s) == |s| * m {
        assert forall i :: 1 <= i < |s| ==> s[i] == s[1..][i - 1] == m;
      }
    }
  }

  lemma {:induction false} SumOfEqual(s: seq<nat>, m: nat)
    requires forall i :: 0 <= i < |s| ==> s[i] == m
    ensures Sum(s) == |s| * m
    decreases |s|
  {
    if |s| > 0 {
      SumOfEqual(s[1..], m);
      assert |s| * m == m + |s[1..]| * m;
    }
  }

  lemma MaxOfUpdate(s: seq<nat>, i: nat, v: nat)
    requires i < |s| && s[i] <= v
    ensures Max(s[i := v]) == Larger(Max(s), v)
  {
    var t := s[i := v];
    assert t[i] == v;
    assert forall j :: 0 <= j < |s| ==> s[j] <= t[j];
    var j :| 0 <= j < |s| && s[j] == Max(s);
    assert s[j] <= t[j] <= Max(t);
  }

  // ---------- The greedy choice is optimal ----------

  lemma LeastBelowMax(counts: seq<nat>, i: nat)
    requires IsFirstLeast(counts, i)
    ensures counts[i] <= Max(counts)
    ensures Sum(counts) <= |counts| * Max(counts)
    ensures counts[i] == Max(counts) <==> Sum(counts) == |counts| * Max(counts)
  {
    SumBound(counts, Max(counts));
    if counts[i] == Max(counts) {
      SumOfEqual(counts, Max(counts));
    }
  }

  /** Arithmetic of one step: the bound rises only when the counts stand level. */
  lemma StepArithmetic(m: nat, least: nat, m0: nat, s: nat)
    requires m == Larger(m0, CeilEighth(s)) && least <= m && s <= 8 * m
    requires least == m <==> s == 8 * m
    ensures Larger(m, least + 1) == Larger(m0, CeilEighth(s + 1))
  {
  }

  /** One more store: the maximum rises only when every sector already stands at it. */
  lemma StoreStep(w: Wear, m0: nat, s: nat)
    requires w.Valid()
    requires Sum(w.counts) == s && Max(w.counts) == Larger(m0, CeilEighth(s))
    requires Larger(m0, CeilEighth(s + 1)) < WRAP
    ensures Sum(Store(w).counts) == s + 1
    ensures Max(Store(w).counts) == Larger(m0, CeilEighth(s + 1))
  {
    hide Sum, Max, FirstLeast, IsFirstLeast, CeilEighth;
    var t := FirstLeast(w.counts);
    var least := w.counts[t];
    LeastBelowMax(w.counts, t);
    StepArithmetic(Max(w.counts), least, m0, s);
    assert Incremented(least) == least + 1;
    SumUpdate(w.counts, t, least + 1);
    MaxOfUpdate(w.counts, t, least + 1);
  }

  /** The largest erase count after `n` stores, from any starting counts. */
  lemma {:induction false} GreedyMaximum(w: Wear, n: nat)
    requires w.Valid()
    requires Larger(Max(w.counts), CeilEighth(Sum(w.counts) + n)) < WRAP
    ensures Sum(Stores(w, n).counts) == Sum(w.counts) + n
    ensures Max(Stores(w, n).counts) == Larger(Max(w.counts), CeilEighth(Sum(w.counts) + n))
    decreases n
  {
    hide Sum, Max, Store;
    if n == 0 {
      SumBound(w.counts, Max(w.counts));
    } else {
      GreedyMaximum(w, n - 1);
      StoreStep(Stores(w, n - 1), Max(w.counts), Sum(w.counts) + n - 1);
    }
  }

  /** Erasing an arbitrary list of sectors, one after the other. */
  function Erase(counts: seq<nat>, choices: seq<Sector>): (s: seq<nat>)
    requires |counts| == SECTORS
    ensures |s| == SECTORS
    decreases |choices|
  {
    if |choices| == 0 then counts
    else
      var c := choices[0];
      Erase(counts[c := counts[c] + 1], choices[1..])
  }

  lemma {:induction false} AnyChoiceMaximum(counts: seq<nat>, choices: seq<Sector>)
    requires |counts| == SECTORS
    ensures Sum(Erase(counts, choices)) == Sum(counts) + |choices|
    ensures Max(Erase(counts, choices)) >= Larger(Max(counts), CeilEighth(Sum(counts) + |choices|))
    decreases |choices|
  {
    hide Sum, Max;
    if |choices| == 0 {
      SumBound(counts, Max(counts));
    } else {
      var c := choices[0];
      var next := counts[c := counts[c] + 1];
      SumUpdate(counts, c, counts[c] + 1);
      MaxOfUpdate(counts, c, counts[c] + 1);
      AnyChoiceMaximum(next, choices[1..]);
    }
  }

  /** No other choice of as many sectors ends with a lower maximum. */
  lemma GreedyIsOptimal(w: Wear, choices: seq<Sector>)
    requires w.Valid()
    requires Larger(Max(w.counts), CeilEighth(Sum(w.counts) + |choices|)) < WRAP
    ensures Max(Stores(w, |choices|).counts) <= Max(Erase(w.counts, choices))
  {
    hide Sum, Max, Stores, Erase, Larger, CeilEighth;
    GreedyMaximum(w, |choices|);
    AnyChoiceMaximum(w.counts, choices);
  }

  /** After as many stores as the sectors are short of the maximum, all eight stand level at it. */
  lemma GreedyLevels(w: Wear, n: nat)
    requires w.Valid() && Sum(w.counts) + n == SECTORS * Max(w.counts)
    ensures forall i :: 0 <= i < SECTORS ==> Stores(w, n).counts[i] == Max(w.counts)
  {
    hide Sum, Max, Stores;
    GreedyMaximum(w, n);
    SumBound(Stores(w, n).counts, Max(w.counts));
  }

  // ---------- From zero counts: round robin ----------

  function RoundRobin(n: nat): (s: seq<nat>)
    ensures |s| == SECTORS
  {
    seq(SECTORS, i requires 0 <= i < SECTORS => n / 8 + if i < n % 8 then 1 else 0)
  }

  lemma RoundRobinStep(n: nat)
    ensures IsFirstLeast(RoundRobin(n), n % 8)
    ensures RoundRobin(n)[n % 8 := n / 8 + 1] == RoundRobin(n + 1)
  {
    if n % 8 == 7 {
      assert (n + 1) / 8 == n / 8 + 1 && (n + 1) % 8 == 0;
    } else {
      assert (n + 1) / 8 == n / 8 && (n + 1) % 8 == n % 8 + 1;
    }
  }

  lemma StoreFromRoundRobin(w: Wear, n: nat)
    requires w.counts == RoundRobin(n) && w.generation == n && n + 1 < WRAP
    ensures Store(w) == Wear(n + 1, n % 8, RoundRobin(n + 1))
  {
    hide FirstLeast, IsFirstLeast;
    RoundRobinStep(n);
    FirstLeastUnique(w.counts, FirstLeast(w.counts), n % 8);
  }

  lemma {:induction false} RoundRobinTotals(n: nat)
    ensures Sum(RoundRobin(n)) == n
    ensures n < WRAP ==> forall i :: 0 <= i < SECTORS ==> RoundRobin(n)[i] <= 0x2000_0000
    decreases n
  {
    hide Sum, IsFirstLeast;
    if n == 0 {
      SumOfEqual(RoundRobin(0), 0);
    } else {
      RoundRobinTotals(n - 1);
      RoundRobinStep(n - 1);
      SumUpdate(RoundRobin(n - 1), (n - 1) % 8, (n - 1) / 8 + 1);
    }
  }

  /** The exact context after `n` stores on a fresh device, for as long as the generation does not wrap. */
  lemma {:induction false} StoresFromFresh(n: nat)
    requires n < WRAP
    ensures Stores(FRESH, n) == Wear(n, if n == 0 then 0 else (n - 1) % 8, RoundRobin(n))
    ensures Sum(Stores(FRESH, n).counts) == n
    ensures forall i :: 0 <= i < SECTORS ==> Stores(FRESH, n).counts[i] <= 0x2000_0000
    decreases n
  {
    hide Sum, Store, RoundRobin;
    RoundRobinTotals(n);
    if n == 0 {
      FreshIsRoundRobin();
    } else {
      StoresFromFresh(n - 1);
      StoreFromRoundRobin(Stores(FRESH, n - 1), n - 1);
    }
  }

  lemma FreshIsRoundRobin()
    ensures FRESH == Wear(0, 0, RoundRobin(0))
  {
    assert FRESH.counts == RoundRobin(0);
  }
}
