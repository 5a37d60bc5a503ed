/**
  The month's days and their split into the weekday pool and the weekend pool.
  A date is a proleptic Gregorian day ordinal (day 1 is Monday, 1 January of
  year 1), the same number Python's `date.toordinal()` returns, so consecutive
  calendar days are consecutive integers.
 */
module Calendar {
  import opened Seqs

  type Date = int

  /** Day of the week, Monday = 0 through Sunday = 6, as `date.weekday()` derives it from the ordinal. */
  function Weekday(d: Date): int {
    (d + 6) % 7
  }

  /** Saturday and Sunday: `d.weekday() >= 5`. */
  predicate IsWeekend(d: Date) {
    Weekday(d) >= 5
  }

  /** Every day from `first` to `last` inclusive, ascending; empty when `first` is after `last`. */
  function DateRange(first: Date, last: Date): (r: seq<Date>)
    ensures |r| == if first <= last then last - first + 1 else 0
    ensures forall i :: 0 <= i < |r| ==> r[i] == first + i
    decreases last - first
  {
    if first > last then [] else [first] + DateRange(first + 1, last)
  }

  /** A range holds exactly the days between its ends, each once. */
  lemma DateRangeMembers(first: Date, last: Date)
    ensures forall d :: d in DateRange(first, last) <==> first <= d <= last
    ensures Distinct(DateRange(first, last))
  {
    var r := DateRange(first, last);
    forall d | first <= d <= last
      ensures d in r
    {
      assert r[d - first] == d;
    }
  }

  /** The days of `days` that fall in the chosen pool, in their original order. */
  function PoolDays(days: seq<Date>, weekend: bool): (r: seq<Date>)
    ensures forall d :: d in r <==> d in days && IsWeekend(d) == weekend
  {
    if |days| == 0 then []
    else (if IsWeekend(days[0]) == weekend then [days[0]] else []) + PoolDays(days[1..], weekend)
  }

  /** `[d for d in days if d.weekday() >= 5]` */
  function WeekendDays(days: seq<Date>): (r: seq<Date>)
    ensures forall d :: d in r <==> d in days && Weekday(d) >= 5
  {
    PoolDays(days, true)
  }

  /** `[d for d in days if d.weekday() < 5]` */
  function WeekdayDays(days: seq<Date>): (r: seq<Date>)
    ensures forall d :: d in r <==> d in days && Weekday(d) < 5
  {
    PoolDays(days, false)
  }

  /**
    The two pools split the month exactly: every occurrence of a day lands in
    exactly one of them, so they are disjoint and together are a permutation
    of the month.
   */
  lemma {:induction false} PartitionIsExact(days: seq<Date>)
    ensures multiset(WeekendDays(days)) + multiset(WeekdayDays(days)) == multiset(days)
    ensures forall d :: d in WeekendDays(days) ==> d !in WeekdayDays(days)
  {
    if |days| > 0 {
      PartitionIsExact(days[1..]);
      assert days == [days[0]] + days[1..];
    }
  }

  /** A pool of a distinct month is itself distinct. */
  lemma {:induction false} PoolDaysDistinct(days: seq<Date>, weekend: bool)
    requires Distinct(days)
    ensures Distinct(PoolDays(days, weekend))
  {
    if |days| > 0 {
      DistinctTail(days);
      PoolDaysDistinct(days[1..], weekend);
      if IsWeekend(days[0]) == weekend {
        DistinctCons(days[0], PoolDays(days[1..], weekend));
      }
    }
  }
}
