/**
  One press of "Generate Schedule": refuse a roster missing a tier, split the
  month into its weekday and weekend pools, compute both quota tables, run the
  greedy assigner over each pool, concatenate the two schedules, and publish
  the sorted rows with the clinic cover and the per-fellow summary.
 */
module Scheduler {
  import opened Wrappers
  import opened Seqs
  import opened Calendar
  import opened Roster
  import opened Blackout
  import opened Quotas
  import opened Schedule
  import opened Assigner
  import opened Report

  /**
    The random choices of one run: the weekday walk (shuffled dates, each
    with a shuffled fellow order), the fellows `random.sample` draws for the
    weekend remainder, and the weekend walk.
   */
  datatype Randomness = Randomness(weekdayDraws: seq<Draw>, weekendSample: seq<Fellow>, weekendDraws: seq<Draw>)

  /** Everything one run computes. */
  datatype Run = Run(weekdayQuota: Table, weekendQuota: Table,
                     weekdaySchedule: seq<Entry>, weekendSchedule: seq<Entry>,
                     published: Published)

  /**
    Why a run stops: "Please enter both first-year and second-year
    fellows.", or, in the program as written, the sort of an empty schedule
    raising before anything is shown.
   */
  datatype Error = MissingTier | EmptySchedule

  /** `draws` is what shuffling `pool`, and then `roster` once per date, can produce. */
  ghost predicate IsShuffle(draws: seq<Draw>, pool: seq<Date>, roster: seq<Fellow>) {
    && multiset(DrawDates(draws)) == multiset(pool)
    && forall i :: 0 <= i < |draws| ==> multiset(draws[i].order) == multiset(roster)
  }

  /**
    The random choices one run over `days` with `roster` can make:
    `random.sample(all_fellows, remainder)` picks `remainder` positions of the
    roster without repetition.
   */
  ghost predicate ValidRandomness(rnd: Randomness, days: seq<Date>, roster: seq<Fellow>) {
    && |roster| > 0
    && IsShuffle(rnd.weekdayDraws, WeekdayDays(days), roster)
    && IsShuffle(rnd.weekendDraws, WeekendDays(days), roster)
    && |rnd.weekendSample| == |WeekendDays(days)| % |roster|
    && multiset(rnd.weekendSample) <= multiset(roster)
  }

  /** A walk drawn from the roster names only fellows the quota table knows. */
  lemma ShuffleCovers(draws: seq<Draw>, pool: seq<Date>, roster: seq<Fellow>, rules: Rules)
    requires IsShuffle(draws, pool, roster)
    requires forall f :: f in roster ==> f in rules.quota
    ensures QuotaCovers(rules, draws)
  {
    forall i, f | 0 <= i < |draws| && f in draws[i].order
      ensures f in rules.quota
    {
      assert f in multiset(draws[i].order);
    }
  }

  /** The sampled fellows are roster fellows. */
  lemma SampleOnRoster(sample: seq<Fellow>, roster: seq<Fellow>)
    requires multiset(sample) <= multiset(roster)
    ensures forall f :: f in sample ==> f in roster
  {
    forall f | f in sample
      ensures f in roster
    {
      assert f in multiset(sample);
    }
  }

  /**
    One run over the month `monthStart..monthEnd` (inclusive): an error when
    either tier is empty; otherwise the two quota tables, the two pool
    schedules, and what is published from their concatenation (weekday
    entries first).
   */
  function Generate(firstYear: seq<Fellow>, secondYear: seq<Fellow>, monthStart: Date, monthEnd: Date,
                    em: BlackoutMap, off: BlackoutMap, clinicDate: Date, rnd: Randomness): (r: Result<Run, Error>)
    requires |firstYear| > 0 && |secondYear| > 0 ==>
             ValidRandomness(rnd, DateRange(monthStart, monthEnd), firstYear + secondYear)
    ensures r.Err? <==> |firstYear| == 0 || |secondYear| == 0
    ensures r.Err? ==> r.error == MissingTier
    ensures r.Ok? ==> forall f :: f in r.value.weekdayQuota <==> f in firstYear + secondYear
    ensures r.Ok? ==> forall f :: f in r.value.weekendQuota <==> f in firstYear + secondYear
    ensures r.Ok? ==> multiset(r.value.published.rows) == multiset(r.value.weekdaySchedule + r.value.weekendSchedule)
  {
    if |firstYear| == 0 || |secondYear| == 0 then Err(MissingTier)
    else
      var roster := firstYear + secondYear;
      var days := DateRange(monthStart, monthEnd);
      var weekdayQuota := WeekdayQuotas(firstYear, secondYear, |WeekdayDays(days)|);
      var weekdayRules := Rules(weekdayQuota, em, off);
      ShuffleCovers(rnd.weekdayDraws, WeekdayDays(days), roster, weekdayRules);
      var weekdaySchedule := Assign(rnd.weekdayDraws, weekdayRules);
      SampleOnRoster(rnd.weekendSample, roster);
      var weekendQuota := WeekendQuotas(roster, |WeekendDays(days)|, rnd.weekendSample);
      var weekendRules := Rules(weekendQuota, em, off);
      ShuffleCovers(rnd.weekendDraws, WeekendDays(days), roster, weekendRules);
      var weekendSchedule := Assign(rnd.weekendDraws, weekendRules);
      Ok(Run(weekdayQuota, weekendQuota, weekdaySchedule, weekendSchedule,
             Publish(weekdaySchedule + weekendSchedule, clinicDate)))
  }

  /**
    One run as the program is written: the tier check, then the same pools,
    quotas and walks, but post-processing that raises when no date was
    assigned at all. Every run it completes is the corrected run.
   */
  function GenerateAsWritten(firstYear: seq<Fellow>, secondYear: seq<Fellow>, monthStart: Date, monthEnd: Date,
                             em: BlackoutMap, off: BlackoutMap, clinicDate: Date, rnd: Randomness): (r: Result<Run, Error>)
    requires |firstYear| > 0 && |secondYear| > 0 ==>
             ValidRandomness(rnd, DateRange(monthStart, monthEnd), firstYear + secondYear)
    ensures r == Err(MissingTier) <==> |firstYear| == 0 || |secondYear| == 0
    ensures r == Err(EmptySchedule) <==>
            && Generate(firstYear, secondYear, monthStart, monthEnd, em, off, clinicDate, rnd).Ok?
            && Generate(firstYear, secondYear, monthStart, monthEnd, em, off, clinicDate, rnd).value.weekdaySchedule == []
            && Generate(firstYear, secondYear, monthStart, monthEnd, em, off, clinicDate, rnd).value.weekendSchedule == []
    ensures r.Ok? ==> r == Generate(firstYear, secondYear, monthStart, monthEnd, em, off, clinicDate, rnd)
  {
    var g := Generate(firstYear, secondYear, monthStart, monthEnd, em, off, clinicDate, rnd);
    if g.Err? then g
    else
      var merged := g.value.weekdaySchedule + g.value.weekendSchedule;
      assert merged == [] <==> g.value.weekdaySchedule == [] && g.value.weekendSchedule == [] by {
        assert |merged| == |g.value.weekdaySchedule| + |g.value.weekendSchedule|;
      }
      match PublishAsWritten(merged, clinicDate)
      case Err(_) => Err(EmptySchedule)
      case Ok(_) => g
  }

  /** The inputs of a run that gets past the tier check. */
  ghost predicate Ready(firstYear: seq<Fellow>, secondYear: seq<Fellow>, monthStart: Date, monthEnd: Date, rnd: Randomness) {
    && |firstYear| > 0 && |secondYear| > 0
    && ValidRandomness(rnd, DateRange(monthStart, monthEnd), firstYear + secondYear)
  }

  /** The pieces of a run that gets past the tier check, named. */
  lemma RunShape(firstYear: seq<Fellow>, secondYear: seq<Fellow>, monthStart: Date, monthEnd: Date,
                 em: BlackoutMap, off: BlackoutMap, clinicDate: Date, rnd: Randomness)
    requires Ready(firstYear, secondYear, monthStart, monthEnd, rnd)
    ensures Generate(firstYear, secondYear, monthStart, monthEnd, em, off, clinicDate, rnd).Ok?
    ensures var run := Generate(firstYear, secondYear, monthStart, monthEnd, em, off, clinicDate, rnd).value;
            && QuotaCovers(Rules(run.weekdayQuota, em, off), rnd.weekdayDraws)
            && QuotaCovers(Rules(run.weekendQuota, em, off), rnd.weekendDraws)
            && run.weekdaySchedule == Assign(rnd.weekdayDraws, Rules(run.weekdayQuota, em, off))
            && run.weekendSchedule == Assign(rnd.weekendDraws, Rules(run.weekendQuota, em, off))
            && run.published == Publish(run.weekdaySchedule + run.weekendSchedule, clinicDate)
  {
    var roster := firstYear + secondYear;
    var days := DateRange(monthStart, monthEnd);
    var run := Generate(firstYear, secondYear, monthStart, monthEnd, em, off, clinicDate, rnd).value;
    ShuffleCovers(rnd.weekdayDraws, WeekdayDays(days), roster, Rules(run.weekdayQuota, em, off));
    ShuffleCovers(rnd.weekendDraws, WeekendDays(days), roster, Rules(run.weekendQuota, em, off));
  }

  /**
    A pool's schedule is sound: every entry falls in the month on the pool's
    side of the weekend split and names a roster fellow who is not blacked
    out that day, no date repeats, and every roster fellow stays within quota.
   */
  ghost predicate SoundPool(s: seq<Entry>, quota: Table, roster: seq<Fellow>, em: BlackoutMap, off: BlackoutMap,
                            monthStart: Date, monthEnd: Date, weekend: bool) {
    && (forall e :: e in s ==>
          monthStart <= e.date <= monthEnd && IsWeekend(e.date) == weekend
          && e.fellow in roster && !Blocked(em, off, e.fellow, e.date))
    && Distinct(Dates(s))
    && (forall f :: f in roster ==> f in quota && FellowCount(s, f) <= quota[f])
  }

  /** A shuffle of one pool of the month holds distinct dates, all in the month and on the pool's side. */
  lemma PoolDates(dates: seq<Date>, monthStart: Date, monthEnd: Date, weekend: bool)
    requires multiset(dates) == multiset(PoolDays(DateRange(monthStart, monthEnd), weekend))
    ensures forall d :: d in dates ==> monthStart <= d <= monthEnd && IsWeekend(d) == weekend
    ensures Distinct(dates)
  {
    var days := DateRange(monthStart, monthEnd);
    DateRangeMembers(monthStart, monthEnd);
    PoolDaysDistinct(days, weekend);
    DistinctPermutation(PoolDays(days, weekend), dates);
    forall d | d in dates
      ensures monthStart <= d <= monthEnd && IsWeekend(d) == weekend
    {
      PoolDate(dates, days, weekend, d);
    }
  }

  /** A date of a shuffled pool is a date of the pool. */
  lemma PoolDate(dates: seq<Date>, days: seq<Date>, weekend: bool, d: Date)
    requires multiset(dates) == multiset(PoolDays(days, weekend))
    requires d in dates
    ensures d in days && IsWeekend(d) == weekend
  {
    assert d in multiset(dates);
    assert d in PoolDays(days, weekend);
  }

  /** The walk over one pool of the month, with a quota for exactly the roster, yields a sound schedule. */
  lemma PoolWalk(draws: seq<Draw>, rules: Rules, roster: seq<Fellow>, monthStart: Date, monthEnd: Date, weekend: bool)
    requires QuotaCovers(rules, draws)
    requires multiset(DrawDates(draws)) == multiset(PoolDays(DateRange(monthStart, monthEnd), weekend))
    requires forall f :: f in rules.quota <==> f in roster
    ensures SoundPool(Assign(draws, rules), rules.quota, roster, rules.em, rules.off, monthStart, monthEnd, weekend)
  {
    PoolDates(DrawDates(draws), monthStart, monthEnd, weekend);
  }

  /** Both pool schedules of a run are sound, each against its own quota table. */
  lemma PoolSchedules(firstYear: seq<Fellow>, secondYear: seq<Fellow>, monthStart: Date, monthEnd: Date,
                      em: BlackoutMap, off: BlackoutMap, clinicDate: Date, rnd: Randomness)
    requires Ready(firstYear, secondYear, monthStart, monthEnd, rnd)
    ensures Generate(firstYear, secondYear, monthStart, monthEnd, em, off, clinicDate, rnd).Ok?
    ensures var run := Generate(firstYear, secondYear, monthStart, monthEnd, em, off, clinicDate, rnd).value;
            && SoundPool(run.weekdaySchedule, run.weekdayQuota, firstYear + secondYear, em, off, monthStart, monthEnd, false)
            && SoundPool(run.weekendSchedule, run.weekendQuota, firstYear + secondYear, em, off, monthStart, monthEnd, true)
  {
    RunShape(firstYear, secondYear, monthStart, monthEnd, em, off, clinicDate, rnd);
    var run := Generate(firstYear, secondYear, monthStart, monthEnd, em, off, clinicDate, rnd).value;
    PoolWalk(rnd.weekdayDraws, Rules(run.weekdayQuota, em, off), firstYear + secondYear, monthStart, monthEnd, false);
    PoolWalk(rnd.weekendDraws, Rules(run.weekendQuota, em, off), firstYear + secondYear, monthStart, monthEnd, true);
  }

  /**
    Safety of a run: every published row falls in the month and names a
    roster fellow who is not blacked out that day, no date is published
    twice, and the rows are in date order.
   */
  lemma RunIsSafe(firstYear: seq<Fellow>, secondYear: seq<Fellow>, monthStart: Date, monthEnd: Date,
                  em: BlackoutMap, off: BlackoutMap, clinicDate: Date, rnd: Randomness)
    requires Ready(firstYear, secondYear, monthStart, monthEnd, rnd)
    ensures Generate(firstYear, secondYear, monthStart, monthEnd, em, off, clinicDate, rnd).Ok?
    ensures var rows := Generate(firstYear, secondYear, monthStart, monthEnd, em, off, clinicDate, rnd).value.published.rows;
            && (forall e :: e in rows ==>
                  monthStart <= e.date <= monthEnd && e.fellow in firstYear + secondYear
                  && !Blocked(em, off, e.fellow, e.date))
            && Distinct(Dates(rows))
            && SortedByDate(rows)
  {
    PoolSchedules(firstYear, secondYear, monthStart, monthEnd, em, off, clinicDate, rnd);
    RunShape(firstYear, secondYear, monthStart, monthEnd, em, off, clinicDate, rnd);
    var run := Generate(firstYear, secondYear, monthStart, monthEnd, em, off, clinicDate, rnd).value;
    var a, b := run.weekdaySchedule, run.weekendSchedule;
    var merged := a + b;
    var rows := run.published.rows;
    forall e | e in rows
      ensures monthStart <= e.date <= monthEnd && e.fellow in firstYear + secondYear && !Blocked(em, off, e.fellow, e.date)
    {
      assert e in multiset(rows);
      assert e in merged;
    }
    DatesConcat(a, b);
    DatesMembers(a);
    DatesMembers(b);
    DistinctConcat(Dates(a), Dates(b));
    DistinctPermutation(Dates(merged), Dates(rows));
  }

  /**
    The summary of a run keeps within the pool quotas: a fellow's weekend
    shifts within the weekend quota, and the other shifts, which all come
    from the weekday pool, within the weekday quota.
   */
  lemma SummaryWithinQuotas(firstYear: seq<Fellow>, secondYear: seq<Fellow>, monthStart: Date, monthEnd: Date,
                            em: BlackoutMap, off: BlackoutMap, clinicDate: Date, rnd: Randomness)
    requires Ready(firstYear, secondYear, monthStart, monthEnd, rnd)
    ensures Generate(firstYear, secondYear, monthStart, monthEnd, em, off, clinicDate, rnd).Ok?
    ensures var run := Generate(firstYear, secondYear, monthStart, monthEnd, em, off, clinicDate, rnd).value;
            forall f :: f in run.published.summary ==>
              && f in firstYear + secondYear
              && run.published.summary[f].weekend <= run.weekendQuota[f]
              && run.published.summary[f].weekend <= run.published.summary[f].total
              && run.published.summary[f].total - run.published.summary[f].weekend <= run.weekdayQuota[f]
  {
    PoolSchedules(firstYear, secondYear, monthStart, monthEnd, em, off, clinicDate, rnd);
    RunShape(firstYear, secondYear, monthStart, monthEnd, em, off, clinicDate, rnd);
    var run := Generate(firstYear, secondYear, monthStart, monthEnd, em, off, clinicDate, rnd).value;
    var a, b := run.weekdaySchedule, run.weekendSchedule;
    var merged := a + b;
    var summary := run.published.summary;
    forall f | f in summary
      ensures f in firstYear + secondYear
      ensures summary[f].weekend <= run.weekendQuota[f]
      ensures summary[f].weekend <= summary[f].total
      ensures summary[f].total - summary[f].weekend <= run.weekdayQuota[f]
    {
      FellowCountPositive(merged, f);
      var e: Entry :| e in merged && e.fellow == f;
      var isF := (e: Entry) => e.fellow == f;
      var isWeekendF := (e: Entry) => e.fellow == f && IsWeekend(e.date);
      CountConcat(a, b, isF);
      CountConcat(a, b, isWeekendF);
      CountNone(a, isWeekendF);
      CountAgree(b, isWeekendF, isF);
    }
  }

  /**
    The clinic cover names the one fellow on call on the clinic date, and is
    missing exactly when no published row falls on that date.
   */
  lemma ClinicIsTheOnCallFellow(firstYear: seq<Fellow>, secondYear: seq<Fellow>, monthStart: Date, monthEnd: Date,
                                em: BlackoutMap, off: BlackoutMap, clinicDate: Date, rnd: Randomness, f: Fellow)
    requires Ready(firstYear, secondYear, monthStart, monthEnd, rnd)
    ensures Generate(firstYear, secondYear, monthStart, monthEnd, em, off, clinicDate, rnd).Ok?
    ensures var p := Generate(firstYear, secondYear, monthStart, monthEnd, em, off, clinicDate, rnd).value.published;
            && (p.clinic == Some(f) <==> Entry(clinicDate, f) in p.rows)
            && (p.clinic.None? <==> clinicDate !in Dates(p.rows))
  {
    RunIsSafe(firstYear, secondYear, monthStart, monthEnd, em, off, clinicDate, rnd);
    var run := Generate(firstYear, secondYear, monthStart, monthEnd, em, off, clinicDate, rnd).value;
    var merged := run.weekdaySchedule + run.weekendSchedule;
    ClinicCoverageUnique(run.published.rows, clinicDate, f);
    assert run.published.clinic == ClinicCoverage(SortByDate(merged), clinicDate);
  }

  /** Over a roster of distinct names, the summary's total shifts add up to the number of published rows. */
  lemma SummaryAddsUp(firstYear: seq<Fellow>, secondYear: seq<Fellow>, monthStart: Date, monthEnd: Date,
                      em: BlackoutMap, off: BlackoutMap, clinicDate: Date, rnd: Randomness)
    requires Ready(firstYear, secondYear, monthStart, monthEnd, rnd)
    requires Distinct(firstYear + secondYear)
    ensures Generate(firstYear, secondYear, monthStart, monthEnd, em, off, clinicDate, rnd).Ok?
    ensures var p := Generate(firstYear, secondYear, monthStart, monthEnd, em, off, clinicDate, rnd).value.published;
            Tally(firstYear + secondYear, Totals(p.summary)) == |p.rows|
  {
    var roster := firstYear + secondYear;
    PoolSchedules(firstYear, secondYear, monthStart, monthEnd, em, off, clinicDate, rnd);
    var run := Generate(firstYear, secondYear, monthStart, monthEnd, em, off, clinicDate, rnd).value;
    var merged := run.weekdaySchedule + run.weekendSchedule;
    RunShape(firstYear, secondYear, monthStart, monthEnd, em, off, clinicDate, rnd);
    PublishedTotalsAddUp(merged, clinicDate, roster);
  }

  /**
    Over a roster of distinct names, the weekend quotas of a run add up to
    exactly the number of weekend days in the month, each being the floor
    share or, for a sampled fellow, one more.
   */
  lemma WeekendQuotasOfRun(firstYear: seq<Fellow>, secondYear: seq<Fellow>, monthStart: Date, monthEnd: Date,
                           em: BlackoutMap, off: BlackoutMap, clinicDate: Date, rnd: Randomness)
    requires Ready(firstYear, secondYear, monthStart, monthEnd, rnd)
    requires Distinct(firstYear + secondYear)
    ensures Generate(firstYear, secondYear, monthStart, monthEnd, em, off, clinicDate, rnd).Ok?
    ensures var q := Generate(firstYear, secondYear, monthStart, monthEnd, em, off, clinicDate, rnd).value.weekendQuota;
            var pool := |WeekendDays(DateRange(monthStart, monthEnd))|;
            && Tally(firstYear + secondYear, q) == pool
            && (forall f :: f in firstYear + secondYear ==>
                  q[f] == pool / |firstYear + secondYear| + (if f in rnd.weekendSample then 1 else 0))
  {
    var roster := firstYear + secondYear;
    var pool := |WeekendDays(DateRange(monthStart, monthEnd))|;
    SampleOnRoster(rnd.weekendSample, roster);
    SampleDistinct(rnd.weekendSample, roster);
    var q := WeekendQuotas(roster, pool, rnd.weekendSample);
    assert Generate(firstYear, secondYear, monthStart, monthEnd, em, off, clinicDate, rnd).value.weekendQuota == q;
    WeekendQuotaSum(roster, pool, rnd.weekendSample);
    forall f | f in roster
      ensures q[f] == pool / |roster| + (if f in rnd.weekendSample then 1 else 0)
    {
      WeekendQuotaTwoValues(roster, pool, rnd.weekendSample, f);
    }
  }

  /** A sample of positions of a roster of distinct names names nobody twice. */
  lemma SampleDistinct(sample: seq<Fellow>, roster: seq<Fellow>)
    requires multiset(sample) <= multiset(roster)
    requires Distinct(roster)
    ensures Distinct(sample)
  {
    DistinctIffSingletons(roster);
    DistinctIffSingletons(sample);
  }

  /** Nobody on the roster is blacked out on any day of the month. */
  ghost predicate NoBlackouts(roster: seq<Fellow>, monthStart: Date, monthEnd: Date, em: BlackoutMap, off: BlackoutMap) {
    forall f, d :: f in roster && monthStart <= d <= monthEnd ==> !Blocked(em, off, f, d)
  }

  /** Under no blackouts, a walk over a pool of the month covers every date the quotas leave room for. */
  lemma OpenWalk(draws: seq<Draw>, pool: seq<Date>, roster: seq<Fellow>, rules: Rules, monthStart: Date, monthEnd: Date)
    requires IsShuffle(draws, pool, roster)
    requires forall d :: d in pool ==> monthStart <= d <= monthEnd
    requires Distinct(roster)
    requires forall f :: f in roster ==> f in rules.quota
    requires NoBlackouts(roster, monthStart, monthEnd, rules.em, rules.off)
    requires |pool| <= Tally(roster, rules.quota)
    ensures QuotaCovers(rules, draws)
    ensures multiset(Dates(Assign(draws, rules))) == multiset(pool)
  {
    ShuffleCovers(draws, pool, roster, rules);
    forall i, f | 0 <= i < |draws| && f in draws[i].order
      ensures f in roster
    {
      assert f in multiset(draws[i].order);
    }
    forall i, f | 0 <= i < |draws| && f in roster
      ensures f in draws[i].order && !Blocked(rules.em, rules.off, f, draws[i].date)
    {
      assert f in multiset(draws[i].order);
      assert draws[i].date in DrawDates(draws);
      assert draws[i].date in multiset(DrawDates(draws));
      assert draws[i].date in pool;
    }
    TallyConstant(roster, map[], 0);
    assert |draws| == |pool| by {
      assert |multiset(DrawDates(draws))| == |multiset(pool)|;
    }
    FullCoverage(draws, rules, map[], roster);
  }

  /**
    The weekday quotas leave room for every weekday exactly when the weekday
    remainder `pool % N` is at most the number of first-year fellows: their
    extra shift is all the slack there is.
   */
  lemma WeekdayRoom(firstYear: seq<Fellow>, secondYear: seq<Fellow>, pool: nat)
    requires |firstYear| > 0 && |secondYear| > 0
    requires Distinct(firstYear + secondYear)
    ensures pool <= Tally(firstYear + secondYear, WeekdayQuotas(firstYear, secondYear, pool))
            <==> pool % |firstYear + secondYear| <= |firstYear|
  {
    WeekdayQuotaSum(firstYear, secondYear, pool);
    FloorShare(pool, |firstYear + secondYear|);
  }

  /** Under no blackouts, every weekend day of the month is assigned. */
  lemma OpenWeekends(firstYear: seq<Fellow>, secondYear: seq<Fellow>, monthStart: Date, monthEnd: Date,
                     em: BlackoutMap, off: BlackoutMap, clinicDate: Date, rnd: Randomness)
    requires Ready(firstYear, secondYear, monthStart, monthEnd, rnd)
    requires Distinct(firstYear + secondYear)
    requires NoBlackouts(firstYear + secondYear, monthStart, monthEnd, em, off)
    ensures Generate(firstYear, secondYear, monthStart, monthEnd, em, off, clinicDate, rnd).Ok?
    ensures multiset(Dates(Generate(firstYear, secondYear, monthStart, monthEnd, em, off, clinicDate, rnd).value.weekendSchedule))
            == multiset(WeekendDays(DateRange(monthStart, monthEnd)))
  {
    var roster := firstYear + secondYear;
    var weekends := WeekendDays(DateRange(monthStart, monthEnd));
    var run := Generate(firstYear, secondYear, monthStart, monthEnd, em, off, clinicDate, rnd).value;
    DateRangeMembers(monthStart, monthEnd);
    SampleOnRoster(rnd.weekendSample, roster);
    WeekendQuotaSum(roster, |weekends|, rnd.weekendSample);
    OpenWalk(rnd.weekendDraws, weekends, roster, Rules(run.weekendQuota, em, off), monthStart, monthEnd);
  }

  /**
    Under no blackouts, every weekday of the month is assigned exactly when
    the weekday remainder `|weekdays| % N` is at most the number of
    first-year fellows; otherwise some weekday is dropped.
   */
  lemma OpenWeekdays(firstYear: seq<Fellow>, secondYear: seq<Fellow>, monthStart: Date, monthEnd: Date,
                     em: BlackoutMap, off: BlackoutMap, clinicDate: Date, rnd: Randomness)
    requires Ready(firstYear, secondYear, monthStart, monthEnd, rnd)
    requires Distinct(firstYear + secondYear)
    requires NoBlackouts(firstYear + secondYear, monthStart, monthEnd, em, off)
    ensures Generate(firstYear, secondYear, monthStart, monthEnd, em, off, clinicDate, rnd).Ok?
    ensures var s := Generate(firstYear, secondYear, monthStart, monthEnd, em, off, clinicDate, rnd).value.weekdaySchedule;
            var weekdays := WeekdayDays(DateRange(monthStart, monthEnd));
            multiset(Dates(s)) == multiset(weekdays) <==> |weekdays| % |firstYear + secondYear| <= |firstYear|
  {
    var roster := firstYear + secondYear;
    var weekdays := WeekdayDays(DateRange(monthStart, monthEnd));
    var run := Generate(firstYear, secondYear, monthStart, monthEnd, em, off, clinicDate, rnd).value;
    DateRangeMembers(monthStart, monthEnd);
    WeekdayRoom(firstYear, secondYear, |weekdays|);
    if |weekdays| % |roster| <= |firstYear| {
      OpenWalk(rnd.weekdayDraws, weekdays, roster, Rules(run.weekdayQuota, em, off), monthStart, monthEnd);
    } else {
      var s := run.weekdaySchedule;
      LoadsAddUp(s, roster);
      TallyMonotone(roster, Loads(s), run.weekdayQuota);
      assert |multiset(Dates(s))| != |multiset(weekdays)|;
    }
  }

  /**
    When every roster fellow is blacked out on every day of the month, both
    pool schedules come out empty, so the post-processing as written raises on
    the empty table and the run as written stops, where the corrected run
    publishes an empty schedule.
   */
  lemma FullyBlockedMonthFails(firstYear: seq<Fellow>, secondYear: seq<Fellow>, monthStart: Date, monthEnd: Date,
                               em: BlackoutMap, off: BlackoutMap, clinicDate: Date, rnd: Randomness)
    requires Ready(firstYear, secondYear, monthStart, monthEnd, rnd)
    requires forall f, d :: f in firstYear + secondYear && monthStart <= d <= monthEnd ==> Blocked(em, off, f, d)
    ensures Generate(firstYear, secondYear, monthStart, monthEnd, em, off, clinicDate, rnd).Ok?
    ensures var run := Generate(firstYear, secondYear, monthStart, monthEnd, em, off, clinicDate, rnd).value;
            && run.weekdaySchedule + run.weekendSchedule == []
            && PublishAsWritten(run.weekdaySchedule + run.weekendSchedule, clinicDate).Err?
            && run.published.rows == [] && run.published.clinic.None?
    ensures GenerateAsWritten(firstYear, secondYear, monthStart, monthEnd, em, off, clinicDate, rnd) == Err(EmptySchedule)
  {
    var roster := firstYear + secondYear;
    var days := DateRange(monthStart, monthEnd);
    var run := Generate(firstYear, secondYear, monthStart, monthEnd, em, off, clinicDate, rnd).value;
    DateRangeMembers(monthStart, monthEnd);
    BlockedWalk(rnd.weekdayDraws, WeekdayDays(days), roster, Rules(run.weekdayQuota, em, off), monthStart, monthEnd);
    BlockedWalk(rnd.weekendDraws, WeekendDays(days), roster, Rules(run.weekendQuota, em, off), monthStart, monthEnd);
    EmptyScheduleIsPublished(clinicDate);
  }

  /** A walk over days on which every roster fellow is blacked out assigns nothing. */
  lemma BlockedWalk(draws: seq<Draw>, pool: seq<Date>, roster: seq<Fellow>, rules: Rules, monthStart: Date, monthEnd: Date)
    requires IsShuffle(draws, pool, roster)
    requires forall d :: d in pool ==> monthStart <= d <= monthEnd
    requires forall f :: f in roster ==> f in rules.quota
    requires forall f, d :: f in roster && monthStart <= d <= monthEnd ==> Blocked(rules.em, rules.off, f, d)
    ensures QuotaCovers(rules, draws)
    ensures Assign(draws, rules) == []
  {
    ShuffleCovers(draws, pool, roster, rules);
    forall i, f | 0 <= i < |draws| && f in draws[i].order
      ensures Blocked(rules.em, rules.off, f, draws[i].date)
    {
      assert f in multiset(draws[i].order);
      assert draws[i].date in DrawDates(draws);
      assert draws[i].date in multiset(DrawDates(draws));
      assert draws[i].date in pool;
    }
    AllBlockedAssignsNothing(draws, rules, map[]);
  }
}
