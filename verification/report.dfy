/**
  Post-processing of the merged schedule: sorting by date, the per-fellow
  summary (`groupby("Fellow")` with total and weekend counts) and the
  clinic-day lookup.
 */
module Report {
  import opened Wrappers
  import opened Seqs
  import opened Calendar
  import opened Roster
  import opened Schedule

  // ---- sorting by date ----

  /** Entries in ascending date order. */
  ghost predicate SortedByDate(s: seq<Entry>) {
    forall i, j :: 0 <= i < j < |s| ==> s[i].date <= s[j].date
  }

  /** Insert `e` in front of the first entry that is not earlier than it. */
  function Insert(e: Entry, s: seq<Entry>): (r: seq<Entry>)
    ensures multiset(r) == multiset(s) + multiset{e}
  {
    if |s| == 0 then [e]
    else if e.date <= s[0].date then [e] + s
    else
      assert s == [s[0]] + s[1..];
      [s[0]] + Insert(e, s[1..])
  }

  /** Inserting into a sorted schedule keeps it sorted. */
  lemma {:induction false} InsertSorted(e: Entry, s: seq<Entry>)
    requires SortedByDate(s)
    ensures SortedByDate(Insert(e, s))
  {
    if |s| > 0 && e.date > s[0].date {
      var t := Insert(e, s[1..]);
      InsertSorted(e, s[1..]);
      var r := [s[0]] + t;
      assert Insert(e, s) == r;
      forall x | x in s[1..]
        ensures s[0].date <= x.date
      {
        var k :| 0 <= k < |s[1..]| && s[1..][k] == x;
        assert s[k + 1] == x;
      }
      InsertBound(e, s[1..], s[0].date);
      forall i, j | 0 <= i < j < |r|
        ensures r[i].date <= r[j].date
      {
        assert r[j] == t[j - 1];
        if i > 0 {
          assert r[i] == t[i - 1];
        } else {
          assert t[j - 1] in t;
        }
      }
    }
  }

  /** Inserting an entry no earlier than `lo` among entries no earlier than `lo` leaves none earlier than `lo`. */
  lemma InsertBound(e: Entry, s: seq<Entry>, lo: Date)
    requires lo <= e.date
    requires forall x :: x in s ==> lo <= x.date
    ensures forall x :: x in Insert(e, s) ==> lo <= x.date
  {
  }

  /** `sort_values(by="Date")`: the same entries in ascending date order. */
  function SortByDate(s: seq<Entry>): (r: seq<Entry>)
    ensures multiset(r) == multiset(s)
    ensures SortedByDate(r)
  {
    if |s| == 0 then []
    else
      assert s == [s[0]] + s[1..];
      InsertSorted(s[0], SortByDate(s[1..]));
      Insert(s[0], SortByDate(s[1..]))
  }

  /** Inserting an entry adds its date to the multiset of dates. */
  lemma {:induction false} InsertDates(e: Entry, s: seq<Entry>)
    ensures multiset(Dates(Insert(e, s))) == multiset(Dates(s)) + multiset{e.date}
  {
    if |s| > 0 && e.date > s[0].date {
      InsertDates(e, s[1..]);
      assert Dates(s) == [s[0].date] + Dates(s[1..]);
      assert Insert(e, s) == [s[0]] + Insert(e, s[1..]);
      assert Dates(Insert(e, s)) == [s[0].date] + Dates(Insert(e, s[1..]));
    } else if |s| > 0 {
      assert Dates(Insert(e, s)) == [e.date] + Dates(s);
    }
  }

  /** Sorting keeps the multiset of dates. */
  lemma {:induction false} SortDates(s: seq<Entry>)
    ensures multiset(Dates(SortByDate(s))) == multiset(Dates(s))
  {
    if |s| > 0 {
      SortDates(s[1..]);
      InsertDates(s[0], SortByDate(s[1..]));
      assert Dates(s) == [s[0].date] + Dates(s[1..]);
    }
  }

  /** Counting does not depend on the order of the entries. */
  lemma {:induction false} CountPermutation(a: seq<Entry>, b: seq<Entry>, p: Entry -> bool)
    requires multiset(a) == multiset(b)
    ensures Count(a, p) == Count(b, p)
    decreases |a|
  {
    if |a| == 0 {
      assert |b| == |multiset(b)| == 0;
    } else {
      var x := a[0];
      assert x in multiset(b);
      var j :| 0 <= j < |b| && b[j] == x;
      var b' := b[..j] + b[j + 1..];
      RemoveAt(b, j, p);
      assert a == [x] + a[1..];
      assert multiset(a[1..]) == multiset(a) - multiset{x};
      CountPermutation(a[1..], b', p);
    }
  }

  /** Taking out the entry at `j` takes it out of the multiset and out of the count. */
  lemma RemoveAt(b: seq<Entry>, j: nat, p: Entry -> bool)
    requires j < |b|
    ensures multiset(b[..j] + b[j + 1..]) == multiset(b) - multiset{b[j]}
    ensures Count(b, p) == Count(b[..j] + b[j + 1..], p) + (if p(b[j]) then 1 else 0)
  {
    var x := b[j];
    assert b[..j + 1] == b[..j] + [x];
    assert b == b[..j + 1] + b[j + 1..];
    RemoveFromMultiset(b[..j], x, b[j + 1..]);
    RemoveFromCount(b[..j], x, b[j + 1..], p);
  }

  lemma RemoveFromMultiset(a: seq<Entry>, x: Entry, c: seq<Entry>)
    ensures multiset(a + c) == multiset(a + [x] + c) - multiset{x}
  {
  }

  lemma RemoveFromCount(a: seq<Entry>, x: Entry, c: seq<Entry>, p: Entry -> bool)
    ensures Count(a + [x] + c, p) == Count(a + c, p) + (if p(x) then 1 else 0)
  {
    CountConcat(a + [x], c, p);
    CountConcat(a, [x], p);
    CountConcat(a, c, p);
  }

  // ---- summary ----

  /** One row of the summary table. */
  datatype SummaryRow = SummaryRow(total: nat, weekend: nat)

  /**
    `groupby("Fellow").agg(Total_Shifts=count, Weekend_Shifts=sum)`: one row
    for every fellow who holds at least one shift, none for the others; the
    row counts the fellow's shifts and those of them on a weekend.
   */
  function Summary(s: seq<Entry>): (m: map<Fellow, SummaryRow>)
    ensures forall f :: f in m <==> FellowCount(s, f) > 0
    ensures forall f :: f in m ==> m[f].total == FellowCount(s, f) && m[f].weekend == WeekendCount(s, f)
    ensures forall f :: f !in m ==> FellowCount(s, f) == 0 && WeekendCount(s, f) == 0
  {
    if |s| == 0 then map[]
    else
      var m := Summary(s[1..]);
      var e := s[0];
      var row := if e.fellow in m then m[e.fellow] else SummaryRow(0, 0);
      var r := m[e.fellow := SummaryRow(row.total + 1, row.weekend + (if IsWeekend(e.date) then 1 else 0))];
      assert forall f :: FellowCount(s, f) == (if e.fellow == f then 1 else 0) + FellowCount(s[1..], f)
                      && WeekendCount(s, f) == (if e.fellow == f && IsWeekend(e.date) then 1 else 0) + WeekendCount(s[1..], f) by {
        forall f
          ensures FellowCount(s, f) == (if e.fellow == f then 1 else 0) + FellowCount(s[1..], f)
          ensures WeekendCount(s, f) == (if e.fellow == f && IsWeekend(e.date) then 1 else 0) + WeekendCount(s[1..], f)
        {
        }
      }
      r
  }

  /** The summary's totals as a per-fellow table; a fellow without a row reads as zero. */
  function Totals(m: map<Fellow, SummaryRow>): Table {
    map f | f in m :: m[f].total
  }

  /** Two tables that agree on every fellow of the roster have the same tally. */
  lemma TallyAgree(roster: seq<Fellow>, a: Table, b: Table)
    requires forall f :: f in roster ==> Get(a, f) == Get(b, f)
    ensures Tally(roster, a) == Tally(roster, b)
  {
  }

  /** Each fellow's shift count, gathered entry by entry. */
  function Loads(s: seq<Entry>): (m: Table)
    ensures forall f :: Get(m, f) == FellowCount(s, f)
  {
    if |s| == 0 then map[] else Bump(Loads(s[1..]), s[0].fellow)
  }

  /** Over a distinct roster naming every scheduled fellow, the summary's totals add up to the schedule's length. */
  lemma {:induction false} SummaryTotalsAddUp(s: seq<Entry>, roster: seq<Fellow>)
    requires Distinct(roster)
    requires forall e :: e in s ==> e.fellow in roster
    ensures Tally(roster, Totals(Summary(s))) == |s|
  {
    LoadsAddUp(s, roster);
    TallyAgree(roster, Totals(Summary(s)), Loads(s));
  }

  /** Every entry adds one to the tally of the loads over a roster that names its fellow. */
  lemma {:induction false} LoadsAddUp(s: seq<Entry>, roster: seq<Fellow>)
    requires Distinct(roster)
    requires forall e :: e in s ==> e.fellow in roster
    ensures Tally(roster, Loads(s)) == |s|
  {
    if |s| == 0 {
      TallyAgree(roster, map[], Loads(s));
      TallyConstant(roster, map[], 0);
    } else {
      assert s[0] in s;
      assert forall e :: e in s[1..] ==> e in s;
      LoadsAddUp(s[1..], roster);
      TallyBump(roster, Loads(s[1..]), s[0].fellow);
    }
  }

  // ---- clinic lookup ----

  /**
    The fellow on call on the clinic date: the first entry with that date, or
    nothing ("No fellow is assigned for the clinic day").
   */
  function ClinicCoverage(rows: seq<Entry>, clinicDate: Date): (r: Option<Fellow>)
    ensures r.None? <==> clinicDate !in Dates(rows)
    ensures r.Some? ==> Entry(clinicDate, r.value) in rows
  {
    if |rows| == 0 then None
    else if rows[0].date == clinicDate then Some(rows[0].fellow)
    else
      assert Dates(rows) == [rows[0].date] + Dates(rows[1..]);
      ClinicCoverage(rows[1..], clinicDate)
  }

  /** When no date repeats, the lookup names exactly the fellow who holds the clinic date. */
  lemma ClinicCoverageUnique(rows: seq<Entry>, clinicDate: Date, f: Fellow)
    requires Distinct(Dates(rows))
    ensures ClinicCoverage(rows, clinicDate) == Some(f) <==> Entry(clinicDate, f) in rows
  {
  }

  // ---- the published tables ----

  /** What the page shows: the sorted schedule, the summary and the clinic cover. */
  datatype Published = Published(rows: seq<Entry>, summary: map<Fellow, SummaryRow>, clinic: Option<Fellow>)

  /** Why the as-written post-processing aborts. */
  datatype PublishError = NoDateColumn

  /**
    Post-processing as written: an empty schedule gives `pd.DataFrame([])`,
    which has no `Date` column, so `sort_values(by="Date")` raises before
    anything is shown.
   */
  function PublishAsWritten(merged: seq<Entry>, clinicDate: Date): (r: Result<Published, PublishError>)
    ensures r.Err? <==> |merged| == 0
    ensures r.Ok? ==> r.value == Publish(merged, clinicDate)
  {
    if |merged| == 0 then Err(NoDateColumn) else Ok(Publish(merged, clinicDate))
  }

  /**
    Post-processing for every schedule, the empty one included: the rows are
    the merged entries in date order, the summary counts each fellow's shifts
    and weekend shifts, and the clinic cover is missing exactly when no entry
    holds the clinic date.
   */
  function Publish(merged: seq<Entry>, clinicDate: Date): (t: Published)
    ensures multiset(t.rows) == multiset(merged) && SortedByDate(t.rows)
    ensures multiset(Dates(t.rows)) == multiset(Dates(merged))
    ensures forall f :: f in t.summary <==> FellowCount(merged, f) > 0
    ensures forall f :: f in t.summary ==> (t.summary[f].total == FellowCount(merged, f)
                                            && t.summary[f].weekend == WeekendCount(merged, f))
    ensures t.clinic.None? <==> clinicDate !in Dates(merged)
    ensures t.clinic.Some? ==> Entry(clinicDate, t.clinic.value) in merged
  {
    var rows := SortByDate(merged);
    SortDates(merged);
    var summary := Summary(rows);
    assert forall f :: FellowCount(rows, f) == FellowCount(merged, f)
                    && WeekendCount(rows, f) == WeekendCount(merged, f) by {
      forall f
        ensures FellowCount(rows, f) == FellowCount(merged, f) && WeekendCount(rows, f) == WeekendCount(merged, f)
      {
        CountPermutation(rows, merged, (e: Entry) => e.fellow == f);
        CountPermutation(rows, merged, (e: Entry) => e.fellow == f && IsWeekend(e.date));
      }
    }
    assert forall e :: e in rows <==> e in merged by {
      forall e
        ensures e in rows <==> e in merged
      {
        assert e in rows <==> e in multiset(rows);
        assert e in merged <==> e in multiset(merged);
      }
    }
    assert forall d :: d in Dates(rows) <==> d in Dates(merged) by {
      forall d
        ensures d in Dates(rows) <==> d in Dates(merged)
      {
        assert d in Dates(rows) <==> d in multiset(Dates(rows));
        assert d in Dates(merged) <==> d in multiset(Dates(merged));
      }
    }
    Published(rows, summary, ClinicCoverage(rows, clinicDate))
  }

  /** Over a distinct roster naming every scheduled fellow, the published summary's totals add up to the number of rows. */
  lemma PublishedTotalsAddUp(merged: seq<Entry>, clinicDate: Date, roster: seq<Fellow>)
    requires Distinct(roster)
    requires forall e :: e in merged ==> e.fellow in roster
    ensures Tally(roster, Totals(Publish(merged, clinicDate).summary)) == |Publish(merged, clinicDate).rows|
  {
    var t := Publish(merged, clinicDate);
    forall f | f in roster
      ensures Get(Totals(t.summary), f) == Get(Loads(merged), f)
    {
    }
    TallyAgree(roster, Totals(t.summary), Loads(merged));
    LoadsAddUp(merged, roster);
    assert |multiset(t.rows)| == |multiset(merged)|;
  }

  /** The corrected post-processing on an empty schedule: no rows, no summary rows, the clinic day unassigned. */
  lemma EmptyScheduleIsPublished(clinicDate: Date)
    ensures PublishAsWritten([], clinicDate).Err?
    ensures Publish([], clinicDate).rows == [] && Publish([], clinicDate).summary == map[]
    ensures Publish([], clinicDate).clinic == None
  {
  }
}
