/**
  The quota calculator: per-fellow maximum shift counts for the weekday pool
  (skewed towards first-year fellows) and for the weekend pool (shared out
  evenly, the remainder going to a sampled set of fellows).
 */
module Quotas {
  import opened Seqs
  import opened Roster

  /** `share` is the floor of `poolSize / n`: `n` shares fit in the pool and `n` larger ones would not. */
  ghost predicate IsFloorShare(share: int, poolSize: nat, n: nat) {
    share * n <= poolSize < (share + 1) * n
  }

  /** Integer division yields the floor share, and the remainder fills the gap to the pool size. */
  lemma FloorShare(poolSize: nat, n: nat)
    requires n > 0
    ensures IsFloorShare(poolSize / n, poolSize, n)
    ensures poolSize == (poolSize / n) * n + poolSize % n
  {
  }

  /** `a` shares of `base + 1` and `b` shares of `base` make `a + b` shares of `base` and `a` more. */
  lemma SplitShares(a: nat, b: nat, base: nat)
    ensures a * (base + 1) + b * base == base * (a + b) + a
  {
  }

  /**
    Weekday quotas: with `N` fellows in all, every second-year fellow may take
    the floor share `poolSize / N` of the pool and every first-year fellow one
    shift more. The table is `{**first_targets, **second_targets}`, so a name
    in both tiers keeps its second-year quota.
   */
  function WeekdayQuotas(firstYear: seq<Fellow>, secondYear: seq<Fellow>, poolSize: nat): (q: Table)
    requires |firstYear| + |secondYear| > 0
    ensures forall f :: f in q <==> f in firstYear || f in secondYear
    ensures forall f :: f in secondYear ==> q[f] == poolSize / (|firstYear| + |secondYear|)
    ensures forall f :: f in firstYear && f !in secondYear ==> q[f] == poolSize / (|firstYear| + |secondYear|) + 1
  {
    var base := poolSize / (|firstYear| + |secondYear|);
    var firstTargets := map f | f in firstYear :: base + 1;
    var secondTargets := map f | f in secondYear :: base;
    firstTargets + secondTargets
  }

  /** Every first-year fellow's weekday quota is exactly one more than every second-year fellow's, and the latter is the floor share. */
  lemma FirstYearGetsOneMore(firstYear: seq<Fellow>, secondYear: seq<Fellow>, poolSize: nat, junior: Fellow, senior: Fellow)
    requires |firstYear| + |secondYear| > 0
    requires junior in firstYear && junior !in secondYear && senior in secondYear
    ensures WeekdayQuotas(firstYear, secondYear, poolSize)[junior]
         == WeekdayQuotas(firstYear, secondYear, poolSize)[senior] + 1
    ensures IsFloorShare(WeekdayQuotas(firstYear, secondYear, poolSize)[senior], poolSize, |firstYear| + |secondYear|)
  {
  }

  /**
    Over a roster of distinct names, the weekday quotas add up to `N` floor
    shares plus one per first-year fellow. The pool size is not reconciled:
    the sum can exceed the pool by up to the number of first-year fellows and
    fall short of it by less than the number of second-year fellows.
   */
  lemma {:induction false} WeekdayQuotaSum(firstYear: seq<Fellow>, secondYear: seq<Fellow>, poolSize: nat)
    requires |firstYear| + |secondYear| > 0
    requires Distinct(firstYear + secondYear)
    ensures Tally(firstYear + secondYear, WeekdayQuotas(firstYear, secondYear, poolSize))
         == (poolSize / (|firstYear| + |secondYear|)) * (|firstYear| + |secondYear|) + |firstYear|
    ensures poolSize - |secondYear| < Tally(firstYear + secondYear, WeekdayQuotas(firstYear, secondYear, poolSize))
    ensures Tally(firstYear + secondYear, WeekdayQuotas(firstYear, secondYear, poolSize)) <= poolSize + |firstYear|
  {
    var n := |firstYear| + |secondYear|;
    var base := poolSize / n;
    var q := WeekdayQuotas(firstYear, secondYear, poolSize);
    DisjointTiers(firstYear, secondYear);
    TallyConstant(firstYear, q, base + 1);
    TallyConstant(secondYear, q, base);
    TallyConcat(firstYear, secondYear, q);
    SplitShares(|firstYear|, |secondYear|, base);
    FloorShare(poolSize, n);
  }

  /** In a distinct roster no first-year name is also a second-year name. */
  lemma DisjointTiers(firstYear: seq<Fellow>, secondYear: seq<Fellow>)
    requires Distinct(firstYear + secondYear)
    ensures forall f :: f in firstYear ==> f !in secondYear
  {
    forall f | f in firstYear
      ensures f !in secondYear
    {
      var i :| 0 <= i < |firstYear| && firstYear[i] == f;
      forall j | 0 <= j < |secondYear|
        ensures secondYear[j] != f
      {
        assert (firstYear + secondYear)[i] == f;
        assert (firstYear + secondYear)[|firstYear| + j] == secondYear[j];
      }
    }
  }

  /**
    `weekend_targets[f] += 1` for each sampled `f`, in sample order: each
    fellow's quota grows by the number of times the sample names it.
   */
  function AddBonus(q: Table, sample: seq<Fellow>): (r: Table)
    requires forall f :: f in sample ==> f in q
    ensures r.Keys == q.Keys
    ensures forall f :: f in q ==> r[f] == q[f] + multiset(sample)[f]
  {
    if |sample| == 0 then q
    else
      assert sample == [sample[0]] + sample[1..];
      AddBonus(Bump(q, sample[0]), sample[1..])
  }

  /**
    Weekend quotas: every fellow may take the floor share `poolSize / N` of
    the pool, plus one shift for each time `random.sample(all_fellows,
    remainder)` drew that fellow; the sample is an input here.
   */
  function WeekendQuotas(roster: seq<Fellow>, poolSize: nat, sample: seq<Fellow>): (q: Table)
    requires |roster| > 0
    requires forall f :: f in sample ==> f in roster
    ensures forall f :: f in q <==> f in roster
    ensures forall f :: f in roster ==> q[f] == poolSize / |roster| + multiset(sample)[f]
  {
    AddBonus(EvenShares(roster, poolSize / |roster|), sample)
  }

  /** `{f: weekend_target for f in all_fellows}` */
  function EvenShares(roster: seq<Fellow>, base: nat): (q: Table)
    ensures forall f :: f in q <==> f in roster
    ensures forall f :: f in roster ==> q[f] == base
  {
    map f | f in roster :: base
  }

  /** A sample without repeats lifts a fellow by one at most: every weekend quota is the floor share or one more. */
  lemma WeekendQuotaTwoValues(roster: seq<Fellow>, poolSize: nat, sample: seq<Fellow>, f: Fellow)
    requires |roster| > 0
    requires forall g :: g in sample ==> g in roster
    requires Distinct(sample)
    requires f in roster
    ensures WeekendQuotas(roster, poolSize, sample)[f]
         == poolSize / |roster| + (if f in sample then 1 else 0)
  {
    DistinctIffSingletons(sample);
    assert multiset(sample)[f] <= 1;
  }

  /**
    Over a roster of distinct names, when the sample has exactly
    `poolSize % N` members (as `random.sample` guarantees), the weekend quotas
    add up to exactly the number of weekend days.
   */
  lemma {:induction false} WeekendQuotaSum(roster: seq<Fellow>, poolSize: nat, sample: seq<Fellow>)
    requires |roster| > 0
    requires Distinct(roster)
    requires forall f :: f in sample ==> f in roster
    requires |sample| == poolSize % |roster|
    ensures Tally(roster, WeekendQuotas(roster, poolSize, sample)) == poolSize
  {
    EvenSharesWithBonus(roster, poolSize / |roster|, sample);
    FloorShare(poolSize, |roster|);
  }

  /** Over a distinct roster, equal shares of `base` plus one per sampled name tally to `N` shares and the sample's size. */
  lemma EvenSharesWithBonus(roster: seq<Fellow>, base: nat, sample: seq<Fellow>)
    requires Distinct(roster)
    requires forall f :: f in sample ==> f in roster
    ensures Tally(roster, AddBonus(EvenShares(roster, base), sample)) == |roster| * base + |sample|
  {
    var q0 := EvenShares(roster, base);
    TallyConstant(roster, q0, base);
    BonusTally(roster, q0, sample);
  }

  /** Each sampled name on the roster adds one to the roster's tally. */
  lemma {:induction false} BonusTally(roster: seq<Fellow>, q: Table, sample: seq<Fellow>)
    requires Distinct(roster)
    requires forall f :: f in sample ==> f in q && f in roster
    ensures Tally(roster, AddBonus(q, sample)) == Tally(roster, q) + |sample|
  {
    if |sample| > 0 {
      var f := sample[0];
      assert f in sample;
      var q' := Bump(q, f);
      TallyBump(roster, q, f);
      assert forall g :: g in sample[1..] ==> g in sample;
      BonusTally(roster, q', sample[1..]);
    }
  }
}
