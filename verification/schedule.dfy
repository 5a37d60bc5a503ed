/** Schedule entries and the counts taken over a schedule. */
module Schedule {
  import opened Calendar
  import opened Roster

  /** One on-call assignment: `{"Date": date, "Fellow": fellow}`. */
  datatype Entry = Entry(date: Date, fellow: Fellow)

  /** The dates of a schedule, entry by entry. */
  function Dates(s: seq<Entry>): (r: seq<Date>)
    ensures |r| == |s|
    ensures forall i :: 0 <= i < |s| ==> r[i] == s[i].date
  {
    if |s| == 0 then [] else [s[0].date] + Dates(s[1..])
  }

  /** A date occurs in a schedule's dates exactly when some entry carries it. */
  lemma DatesMembers(s: seq<Entry>)
    ensures forall d :: d in Dates(s) <==> exists e :: e in s && e.date == d
  {
  }

  /** The dates of two schedules placed one after the other. */
  lemma DatesConcat(a: seq<Entry>, b: seq<Entry>)
    ensures Dates(a + b) == Dates(a) + Dates(b)
  {
  }

  /** The number of entries that satisfy `p`. */
  function Count(s: seq<Entry>, p: Entry -> bool): nat {
    if |s| == 0 then 0 else (if p(s[0]) then 1 else 0) + Count(s[1..], p)
  }

  /** The number of shifts `f` holds in `s` (the summary's `Total_Shifts`). */
  function FellowCount(s: seq<Entry>, f: Fellow): nat {
    Count(s, (e: Entry) => e.fellow == f)
  }

  /** The number of shifts `f` holds in `s` on a Saturday or Sunday (the summary's `Weekend_Shifts`). */
  function WeekendCount(s: seq<Entry>, f: Fellow): nat {
    Count(s, (e: Entry) => e.fellow == f && IsWeekend(e.date))
  }

  /** A fellow holds a shift exactly when some entry names the fellow. */
  lemma {:induction false} FellowCountPositive(s: seq<Entry>, f: Fellow)
    ensures FellowCount(s, f) > 0 <==> exists e :: e in s && e.fellow == f
  {
    if |s| > 0 {
      FellowCountPositive(s[1..], f);
      assert s == [s[0]] + s[1..];
    }
  }

  /** Counting over two schedules placed one after the other adds up. */
  lemma {:induction false} CountConcat(a: seq<Entry>, b: seq<Entry>, p: Entry -> bool)
    ensures Count(a + b, p) == Count(a, p) + Count(b, p)
  {
    if |a| == 0 {
      assert a + b == b;
    } else {
      assert (a + b)[0] == a[0];
      assert (a + b)[1..] == a[1..] + b;
      CountConcat(a[1..], b, p);
    }
  }

  /** Two tests that agree on every entry of a schedule count the same. */
  lemma {:induction false} CountAgree(s: seq<Entry>, p: Entry -> bool, q: Entry -> bool)
    requires forall e :: e in s ==> (p(e) <==> q(e))
    ensures Count(s, p) == Count(s, q)
  {
    if |s| > 0 {
      assert s[0] in s;
      assert forall e :: e in s[1..] ==> e in s;
      CountAgree(s[1..], p, q);
    }
  }

  /** A test that holds of no entry counts nothing. */
  lemma {:induction false} CountNone(s: seq<Entry>, p: Entry -> bool)
    requires forall e :: e in s ==> !p(e)
    ensures Count(s, p) == 0
  {
    if |s| > 0 {
      assert s[0] in s;
      assert forall e :: e in s[1..] ==> e in s;
      CountNone(s[1..], p);
    }
  }

  /** A test implied by another counts at least as much. */
  lemma {:induction false} CountMonotone(s: seq<Entry>, p: Entry -> bool, q: Entry -> bool)
    requires forall e :: e in s ==> p(e) ==> q(e)
    ensures Count(s, p) <= Count(s, q)
  {
    if |s| > 0 {
      assert s[0] in s;
      assert forall e :: e in s[1..] ==> e in s;
      CountMonotone(s[1..], p, q);
    }
  }
}
