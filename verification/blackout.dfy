/**
  Blackout construction: the days on which a fellow may not be scheduled,
  from emergency-medicine (EM) shift conflicts and from off-day requests. The
  scheduler comes in two variants that differ only here: one takes single EM
  shift dates and single off-days, the other takes inclusive date ranges.
 */
module Blackout {
  import opened Calendar
  import opened Roster

  /** Time of day in minutes after midnight. */
  type TimeOfDay = m: int | 0 <= m < 24 * 60

  /** An EM shift blocks its day only when it starts before 23:00. */
  const EmCutoff: TimeOfDay := 23 * 60

  /** Single-date variant: one EM shift, its date and its start time. */
  datatype EmShift = EmShift(date: Date, start: TimeOfDay)

  /** Date-range variant: EM shifts on every day from `first` to `last`, all starting at `start`. */
  datatype EmRange = EmRange(first: Date, last: Date, start: TimeOfDay)

  /** Date-range variant: an off-day request for every day from `first` to `last`. */
  datatype OffRange = OffRange(first: Date, last: Date)

  /** Per-fellow blocked days; a fellow with no key is blocked nowhere (`dict.get(fellow, set())`). */
  type BlackoutMap = map<Fellow, set<Date>>

  function Lookup(m: BlackoutMap, f: Fellow): set<Date> {
    if f in m then m[f] else {}
  }

  /** The assigner's test: a fellow is unavailable on a day in either the EM set or the off-day set. */
  predicate Blocked(em: BlackoutMap, off: BlackoutMap, f: Fellow, d: Date) {
    d in Lookup(em, f) || d in Lookup(off, f)
  }

  /** The days of `pd.date_range(first, last)`, as a set. */
  function RangeDays(first: Date, last: Date): (r: set<Date>)
    ensures forall d :: d in r <==> first <= d <= last
  {
    DateRangeMembers(first, last);
    set d | d in DateRange(first, last)
  }

  // ---- single-date variant ----

  /** EM shifts of one fellow, entered in order: each adds its date when it starts before the cutoff. */
  function EmShiftDays(shifts: seq<EmShift>): (r: set<Date>)
    ensures forall d :: d in r <==> exists s :: s in shifts && s.date == d && s.start < EmCutoff
  {
    if |shifts| == 0 then {}
    else
      var s := shifts[|shifts| - 1];
      var prefix := shifts[..|shifts| - 1];
      assert shifts == prefix + [s];
      EmShiftDays(prefix) + (if s.start < EmCutoff then {s.date} else {})
  }

  /** Off-days of one fellow, entered in order: each is added unconditionally. */
  function OffDays(days: seq<Date>): (r: set<Date>)
    ensures forall d :: d in r <==> d in days
  {
    if |days| == 0 then {}
    else
      var prefix := days[..|days| - 1];
      assert days == prefix + [days[|days| - 1]];
      OffDays(prefix) + {days[|days| - 1]}
  }

  // ---- date-range variant ----

  /** EM ranges of one fellow: each adds every day of its range when its shifts start before the cutoff. */
  function EmRangeDays(ranges: seq<EmRange>): (r: set<Date>)
    ensures forall d :: d in r <==> exists e :: e in ranges && e.start < EmCutoff && e.first <= d <= e.last
  {
    if |ranges| == 0 then {}
    else
      var e := ranges[|ranges| - 1];
      var prefix := ranges[..|ranges| - 1];
      assert ranges == prefix + [e];
      EmRangeDays(prefix) + (if e.start < EmCutoff then RangeDays(e.first, e.last) else {})
  }

  /** Off-day ranges of one fellow: each adds every day of its range unconditionally. */
  function OffRangeDays(ranges: seq<OffRange>): (r: set<Date>)
    ensures forall d :: d in r <==> exists e :: e in ranges && e.first <= d <= e.last
  {
    if |ranges| == 0 then {}
    else
      var e := ranges[|ranges| - 1];
      var prefix := ranges[..|ranges| - 1];
      assert ranges == prefix + [e];
      OffRangeDays(prefix) + RangeDays(e.first, e.last)
  }

  // ---- per-fellow dictionaries ----

  function EmMapFromShifts(input: map<Fellow, seq<EmShift>>): (m: BlackoutMap)
    ensures forall f, d :: d in Lookup(m, f) <==> f in input && exists s :: s in input[f] && s.date == d && s.start < EmCutoff
  {
    map f | f in input :: EmShiftDays(input[f])
  }

  function OffMapFromDays(input: map<Fellow, seq<Date>>): (m: BlackoutMap)
    ensures forall f, d :: d in Lookup(m, f) <==> f in input && d in input[f]
  {
    map f | f in input :: OffDays(input[f])
  }

  function EmMapFromRanges(input: map<Fellow, seq<EmRange>>): (m: BlackoutMap)
    ensures forall f, d :: d in Lookup(m, f) <==> f in input && exists e :: e in input[f] && e.start < EmCutoff && e.first <= d <= e.last
  {
    map f | f in input :: EmRangeDays(input[f])
  }

  function OffMapFromRanges(input: map<Fellow, seq<OffRange>>): (m: BlackoutMap)
    ensures forall f, d :: d in Lookup(m, f) <==> f in input && exists e :: e in input[f] && e.first <= d <= e.last
  {
    map f | f in input :: OffRangeDays(input[f])
  }

  /**
    Single-date variant: a fellow is blocked on a day exactly when one of the
    fellow's EM shifts on that day starts before 23:00, or the day is one of
    the fellow's off-days.
   */
  lemma BlockedBySingleDates(emInput: map<Fellow, seq<EmShift>>, offInput: map<Fellow, seq<Date>>, f: Fellow, d: Date)
    ensures Blocked(EmMapFromShifts(emInput), OffMapFromDays(offInput), f, d)
        <==> ((f in emInput && exists s :: s in emInput[f] && s.date == d && s.start < EmCutoff)
              || (f in offInput && d in offInput[f]))
  {
  }

  /**
    Date-range variant: a fellow is blocked on a day exactly when the day lies
    inside one of the fellow's EM ranges whose shifts start before 23:00, or
    inside one of the fellow's off-day ranges (ends included).
   */
  lemma BlockedByRanges(emInput: map<Fellow, seq<EmRange>>, offInput: map<Fellow, seq<OffRange>>, f: Fellow, d: Date)
    ensures Blocked(EmMapFromRanges(emInput), OffMapFromRanges(offInput), f, d)
        <==> ((f in emInput && exists e :: e in emInput[f] && e.start < EmCutoff && e.first <= d <= e.last)
              || (f in offInput && exists e :: e in offInput[f] && e.first <= d <= e.last))
  {
  }

  /** The single-date variant is the range variant with one-day ranges. */
  lemma {:induction false} SingleShiftIsOneDayRange(shifts: seq<EmShift>)
    ensures EmShiftDays(shifts) == EmRangeDays(seq(|shifts|, i requires 0 <= i < |shifts| => EmRange(shifts[i].date, shifts[i].date, shifts[i].start)))
  {
    var ranges := seq(|shifts|, i requires 0 <= i < |shifts| => EmRange(shifts[i].date, shifts[i].date, shifts[i].start));
    forall d | d in EmShiftDays(shifts)
      ensures d in EmRangeDays(ranges)
    {
      var s :| s in shifts && s.date == d && s.start < EmCutoff;
      var i :| 0 <= i < |shifts| && shifts[i] == s;
      assert ranges[i] in ranges;
    }
    forall d | d in EmRangeDays(ranges)
      ensures d in EmShiftDays(shifts)
    {
      var e :| e in ranges && e.start < EmCutoff && e.first <= d <= e.last;
      var i :| 0 <= i < |ranges| && ranges[i] == e;
      assert shifts[i] in shifts;
    }
  }
}
