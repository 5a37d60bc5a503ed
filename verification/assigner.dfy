/**
  The randomized greedy assigner `assign_shifts`. Its two sources of
  randomness are inputs: the shuffled order of the pool's dates and, for each
  date, the shuffled order of the fellows. Each date goes to the first fellow
  in that date's order who is not blacked out on it and is still under quota;
  a date that no fellow can take is dropped.
 */
module Assigner {
  import opened Wrappers
  import opened Seqs
  import opened Calendar
  import opened Roster
  import opened Blackout
  import opened Schedule

  /** One step of the shuffled walk: the next date of the pool and the fellow order drawn for it. */
  datatype Draw = Draw(date: Date, order: seq<Fellow>)

  /** What the assigner reads and never changes: the pool's quota table and the two blackout dictionaries. */
  datatype Rules = Rules(quota: Table, em: BlackoutMap, off: BlackoutMap)

  /** The shuffled order of the pool's dates. */
  function DrawDates(draws: seq<Draw>): (r: seq<Date>)
    ensures |r| == |draws|
    ensures forall i :: 0 <= i < |draws| ==> r[i] == draws[i].date
  {
    if |draws| == 0 then [] else [draws[0].date] + DrawDates(draws[1..])
  }

  /** Every fellow a draw can name has a quota, so `base_shift_dict[fellow]` never raises. */
  ghost predicate QuotaCovers(rules: Rules, draws: seq<Draw>) {
    forall i, f :: 0 <= i < |draws| && f in draws[i].order ==> f in rules.quota
  }

  /** The test in the inner loop: not in the EM set, not in the off-day set, and under quota. */
  predicate Eligible(rules: Rules, counts: Table, f: Fellow, d: Date)
    requires f in rules.quota
  {
    !Blocked(rules.em, rules.off, f, d) && Get(counts, f) < rules.quota[f]
  }

  /** The position, from `from` on, of the first eligible fellow in `order`, if there is one. */
  function FirstEligible(order: seq<Fellow>, rules: Rules, counts: Table, d: Date, from: nat): (k: Option<nat>)
    requires from <= |order|
    requires forall f :: f in order ==> f in rules.quota
    ensures k.Some? ==> from <= k.value < |order| && Eligible(rules, counts, order[k.value], d)
    ensures k.Some? ==> forall j :: from <= j < k.value ==> !Eligible(rules, counts, order[j], d)
    ensures k.None? ==> forall j :: from <= j < |order| ==> !Eligible(rules, counts, order[j], d)
    decreases |order| - from
  {
    if from == |order| then None
    else if Eligible(rules, counts, order[from], d) then Some(from)
    else FirstEligible(order, rules, counts, d, from + 1)
  }

  /**
    The fellow the scan gives draw `d` to: the first one in the draw's order
    who is eligible. There is none exactly when every fellow of the order is
    blacked out on the date or at quota.
   */
  function Pick(d: Draw, rules: Rules, counts: Table): (r: Option<Fellow>)
    requires forall f :: f in d.order ==> f in rules.quota
    ensures r.None? <==> forall j :: 0 <= j < |d.order| ==> !Eligible(rules, counts, d.order[j], d.date)
    ensures r.Some? ==> r.value in d.order && r.value in rules.quota && Eligible(rules, counts, r.value, d.date)
  {
    match FirstEligible(d.order, rules, counts, d.date, 0)
    case None => None
    case Some(k) => Some(d.order[k])
  }

  /** The scan picks the fellow at position `k` of the order exactly when `k` is the first eligible position. */
  lemma PickIsFirstEligible(d: Draw, rules: Rules, counts: Table, k: nat)
    requires forall f :: f in d.order ==> f in rules.quota
    requires k < |d.order| && Eligible(rules, counts, d.order[k], d.date)
    requires forall j :: 0 <= j < k ==> !Eligible(rules, counts, d.order[j], d.date)
    ensures Pick(d, rules, counts) == Some(d.order[k])
  {
  }

  /** `fellow_shift_count[fellow] += 1` for the picked fellow; nothing when the date was dropped. */
  function Charge(counts: Table, pick: Option<Fellow>): (r: Table)
    ensures forall g :: Get(r, g) == Get(counts, g) + (if pick == Some(g) then 1 else 0)
  {
    match pick
    case None => counts
    case Some(f) => Bump(counts, f)
  }

  /**
    The walk over the remaining draws, starting from the running counts
    `counts`. Every entry respects the blackouts, takes its date from the
    draws, and keeps each fellow within quota; distinct dates in give
    distinct dates out.
   */
  function AssignFrom(draws: seq<Draw>, rules: Rules, counts: Table): (r: seq<Entry>)
    requires QuotaCovers(rules, draws)
    ensures |r| <= |draws|
    ensures forall e :: e in r ==> e.date in DrawDates(draws) && e.fellow in rules.quota
                                   && !Blocked(rules.em, rules.off, e.fellow, e.date)
    ensures forall f :: f in rules.quota && Get(counts, f) <= rules.quota[f] ==>
                        Get(counts, f) + FellowCount(r, f) <= rules.quota[f]
    ensures Distinct(DrawDates(draws)) ==> Distinct(Dates(r))
    decreases |draws|
  {
    if |draws| == 0 then []
    else
      var pick := Pick(draws[0], rules, counts);
      var charged := Charge(counts, pick);
      var rest := AssignFrom(draws[1..], rules, charged);
      var r := Emit(draws[0].date, pick, rest);
      assert DrawDates(draws) == [draws[0].date] + DrawDates(draws[1..]);
      EmitWithinQuota(draws[0].date, pick, rules, counts, rest);
      assert Distinct(DrawDates(draws)) ==> Distinct(Dates(r)) by {
        if Distinct(DrawDates(draws)) {
          EmitKeepsDistinct(draws[0].date, pick, rest, DrawDates(draws[1..]));
        }
      }
      r
  }

  /** The output of one step: the entry for date `d` when the scan picked someone, ahead of the rest of the walk. */
  function Emit(d: Date, pick: Option<Fellow>, rest: seq<Entry>): (r: seq<Entry>)
    ensures |r| == |rest| + (if pick.Some? then 1 else 0)
    ensures forall e :: e in r <==> (pick.Some? && e == Entry(d, pick.value)) || e in rest
    ensures forall g :: FellowCount(r, g) == FellowCount(rest, g) + (if pick == Some(g) then 1 else 0)
    ensures Dates(r) == (if pick.Some? then [d] else []) + Dates(rest)
  {
    match pick
    case None => rest
    case Some(f) => Place(d, f, rest)
  }

  /** A step that charges only an eligible pick keeps every fellow that was within quota within quota. */
  lemma EmitWithinQuota(d: Date, pick: Option<Fellow>, rules: Rules, counts: Table, rest: seq<Entry>)
    requires pick.Some? ==> pick.value in rules.quota && Get(counts, pick.value) < rules.quota[pick.value]
    requires forall f :: f in rules.quota && Get(Charge(counts, pick), f) <= rules.quota[f] ==>
                         Get(Charge(counts, pick), f) + FellowCount(rest, f) <= rules.quota[f]
    ensures forall f :: f in rules.quota && Get(counts, f) <= rules.quota[f] ==>
                        Get(counts, f) + FellowCount(Emit(d, pick, rest), f) <= rules.quota[f]
  {
  }

  /** A step on a date that none of the later dates repeats keeps the output's dates distinct. */
  lemma EmitKeepsDistinct(d: Date, pick: Option<Fellow>, rest: seq<Entry>, later: seq<Date>)
    requires Distinct([d] + later)
    requires forall e :: e in rest ==> e.date in later
    requires Distinct(later) ==> Distinct(Dates(rest))
    ensures Distinct(Dates(Emit(d, pick, rest)))
  {
    DistinctTail([d] + later);
    assert ([d] + later)[1..] == later;
    DatesMembers(rest);
    if pick.Some? {
      DistinctCons(d, Dates(rest));
    }
  }

  /** `schedule.append(...)` seen from the front: the entry for date `d` ahead of the rest of the walk. */
  function Place(d: Date, f: Fellow, rest: seq<Entry>): (r: seq<Entry>)
    ensures |r| == |rest| + 1
    ensures forall e :: e in r <==> e == Entry(d, f) || e in rest
    ensures forall g :: FellowCount(r, g) == FellowCount(rest, g) + (if g == f then 1 else 0)
    ensures Dates(r) == [d] + Dates(rest)
  {
    var r := [Entry(d, f)] + rest;
    assert r[1..] == rest;
    r
  }

  /** `assign_shifts` on a whole pool: the walk with every running count at zero. */
  function Assign(draws: seq<Draw>, rules: Rules): (r: seq<Entry>)
    requires QuotaCovers(rules, draws)
    ensures |r| <= |draws|
    ensures forall e :: e in r ==> e.date in DrawDates(draws) && e.fellow in rules.quota
                                   && !Blocked(rules.em, rules.off, e.fellow, e.date)
    ensures forall f :: f in rules.quota ==> FellowCount(r, f) <= rules.quota[f]
    ensures Distinct(DrawDates(draws)) ==> Distinct(Dates(r))
  {
    AssignFrom(draws, rules, map[])
  }

  /** The running counts after walking `draws` from `counts`. */
  function CountsAfter(draws: seq<Draw>, rules: Rules, counts: Table): Table
    requires QuotaCovers(rules, draws)
    decreases |draws|
  {
    if |draws| == 0 then counts
    else CountsAfter(draws[1..], rules, Charge(counts, Pick(draws[0], rules, counts)))
  }

  /** The running count grows only by assignment: after the walk it is the starting count plus the fellow's entries. */
  lemma {:induction false} CountsTrackEntries(draws: seq<Draw>, rules: Rules, counts: Table, f: Fellow)
    requires QuotaCovers(rules, draws)
    ensures Get(CountsAfter(draws, rules, counts), f) == Get(counts, f) + FellowCount(AssignFrom(draws, rules, counts), f)
    decreases |draws|
  {
    if |draws| > 0 {
      var pick := Pick(draws[0], rules, counts);
      CountsTrackEntries(draws[1..], rules, Charge(counts, pick), f);
    }
  }

  /** Both halves of a covered walk are covered. */
  lemma QuotaCoversSplit(rules: Rules, a: seq<Draw>, b: seq<Draw>)
    requires QuotaCovers(rules, a + b)
    ensures QuotaCovers(rules, a) && QuotaCovers(rules, b)
  {
    forall i, f | 0 <= i < |a| && f in a[i].order
      ensures f in rules.quota
    {
      assert (a + b)[i] == a[i];
    }
    forall i, f | 0 <= i < |b| && f in b[i].order
      ensures f in rules.quota
    {
      assert (a + b)[|a| + i] == b[i];
    }
  }

  /** Walking `a` then `b` is walking `a` and then walking `b` from the counts `a` left behind. */
  lemma {:induction false} WalkSplits(a: seq<Draw>, b: seq<Draw>, rules: Rules, counts: Table)
    requires QuotaCovers(rules, a + b)
    ensures QuotaCovers(rules, a) && QuotaCovers(rules, b)
    ensures AssignFrom(a + b, rules, counts)
         == AssignFrom(a, rules, counts) + AssignFrom(b, rules, CountsAfter(a, rules, counts))
    decreases |a|
  {
    QuotaCoversSplit(rules, a, b);
    if |a| == 0 {
      assert a + b == b;
    } else {
      assert (a + b)[0] == a[0];
      assert (a + b)[1..] == a[1..] + b;
      var pick := Pick(a[0], rules, counts);
      var c' := Charge(counts, pick);
      WalkSplits(a[1..], b, rules, c');
      StepOfWalk(a + b, rules, counts);
      StepOfWalk(a, rules, counts);
      var x, y := AssignFrom(a[1..], rules, c'), AssignFrom(b, rules, CountsAfter(a[1..], rules, c'));
      EmitConcat(a[0].date, pick, x, y);
    }
  }

  /** The counts after walking `a` then `b` are the counts after walking `b` from those `a` left behind. */
  lemma {:induction false} CountsAfterSplits(a: seq<Draw>, b: seq<Draw>, rules: Rules, counts: Table)
    requires QuotaCovers(rules, a + b)
    ensures QuotaCovers(rules, a) && QuotaCovers(rules, b)
    ensures CountsAfter(a + b, rules, counts) == CountsAfter(b, rules, CountsAfter(a, rules, counts))
    decreases |a|
  {
    QuotaCoversSplit(rules, a, b);
    if |a| == 0 {
      assert a + b == b;
    } else {
      assert (a + b)[0] == a[0];
      assert (a + b)[1..] == a[1..] + b;
      CountsAfterSplits(a[1..], b, rules, Charge(counts, Pick(a[0], rules, counts)));
    }
  }

  /** Emitting in front of a concatenation is emitting in front of its first part. */
  lemma EmitConcat(d: Date, pick: Option<Fellow>, x: seq<Entry>, y: seq<Entry>)
    ensures Emit(d, pick, x + y) == Emit(d, pick, x) + y
  {
  }

  /**
    Greedy choice, for a pool of distinct dates: draw `i`'s date is in the
    output with fellow `f` exactly when `f` is the scan's pick for it, given
    the counts left by the draws before it.
   */
  lemma GreedyChoice(draws: seq<Draw>, rules: Rules, counts: Table, i: nat)
    requires QuotaCovers(rules, draws)
    requires Distinct(DrawDates(draws))
    requires i < |draws|
    ensures QuotaCovers(rules, draws[..i])
    ensures forall f :: Entry(draws[i].date, f) in AssignFrom(draws, rules, counts)
                   <==> Pick(draws[i], rules, CountsAfter(draws[..i], rules, counts)) == Some(f)
  {
    var a, b := draws[..i], draws[i..];
    assert draws == a + b;
    WalkSplits(a, b, rules, counts);
    var c := CountsAfter(a, rules, counts);
    var d := draws[i].date;
    assert b[0] == draws[i] && b[1..] == draws[i + 1..];
    var pick := Pick(draws[i], rules, c);
    var tail := AssignFrom(draws[i + 1..], rules, Charge(c, pick));
    var front := AssignFrom(a, rules, counts);
    var r := AssignFrom(draws, rules, counts);
    assert r == front + Emit(d, pick, tail);
    DateOnlyAt(draws, i);
    forall f
      ensures Entry(d, f) in r <==> pick == Some(f)
    {
      assert Entry(d, f) !in front;
      assert Entry(d, f) !in tail;
    }
  }

  /**
    A date of a pool of distinct dates is missing from the output exactly
    when, at the moment the walk reached it, every fellow of its order was
    blacked out on it or at quota.
   */
  lemma DroppedDate(draws: seq<Draw>, rules: Rules, counts: Table, i: nat)
    requires QuotaCovers(rules, draws)
    requires Distinct(DrawDates(draws))
    requires i < |draws|
    ensures QuotaCovers(rules, draws[..i])
    ensures draws[i].date !in Dates(AssignFrom(draws, rules, counts))
        <==> forall j :: 0 <= j < |draws[i].order| ==>
               !Eligible(rules, CountsAfter(draws[..i], rules, counts), draws[i].order[j], draws[i].date)
  {
    GreedyChoice(draws, rules, counts, i);
    DatesMembers(AssignFrom(draws, rules, counts));
  }

  /** In a walk of distinct dates, draw `i`'s date occurs in no other draw. */
  lemma DateOnlyAt(draws: seq<Draw>, i: nat)
    requires Distinct(DrawDates(draws)) && i < |draws|
    ensures draws[i].date !in DrawDates(draws[..i]) && draws[i].date !in DrawDates(draws[i + 1..])
  {
  }

  /** With room left on the roster, no blackouts and every rostered fellow in the order, the scan finds someone. */
  lemma RoomMeansPick(d: Draw, rules: Rules, counts: Table, roster: seq<Fellow>)
    requires forall f :: f in d.order ==> f in rules.quota
    requires forall f :: f in roster ==> f in d.order && !Blocked(rules.em, rules.off, f, d.date)
    requires Tally(roster, counts) < Tally(roster, rules.quota)
    ensures Pick(d, rules, counts).Some?
  {
    if Pick(d, rules, counts).None? {
      forall f | f in roster
        ensures Get(rules.quota, f) <= Get(counts, f)
      {
        var j :| 0 <= j < |d.order| && d.order[j] == f;
        assert !Eligible(rules, counts, d.order[j], d.date);
      }
      TallyMonotone(roster, rules.quota, counts);
    }
  }

  /**
    Full coverage: when nobody on a distinct roster is blacked out on any date
    of the walk, every draw's order is a reordering of that roster, and the
    roster's quotas leave room for every date, every date of the walk is
    assigned, in walk order.
   */
  lemma {:induction false} FullCoverage(draws: seq<Draw>, rules: Rules, counts: Table, roster: seq<Fellow>)
    requires QuotaCovers(rules, draws)
    requires Distinct(roster)
    requires forall i, f :: 0 <= i < |draws| && f in draws[i].order ==> f in roster
    requires forall i, f :: 0 <= i < |draws| && f in roster ==>
                            f in draws[i].order && !Blocked(rules.em, rules.off, f, draws[i].date)
    requires Tally(roster, counts) + |draws| <= Tally(roster, rules.quota)
    ensures Dates(AssignFrom(draws, rules, counts)) == DrawDates(draws)
    decreases |draws|
  {
    if |draws| > 0 {
      RoomMeansPick(draws[0], rules, counts, roster);
      var f := Pick(draws[0], rules, counts).value;
      assert f in roster;
      TallyBump(roster, counts, f);
      FullCoverage(draws[1..], rules, Bump(counts, f), roster);
    }
  }

  /** When every fellow of every draw's order is blacked out on that draw's date, nothing is assigned. */
  lemma {:induction false} AllBlockedAssignsNothing(draws: seq<Draw>, rules: Rules, counts: Table)
    requires QuotaCovers(rules, draws)
    requires forall i, f :: 0 <= i < |draws| && f in draws[i].order ==> Blocked(rules.em, rules.off, f, draws[i].date)
    ensures AssignFrom(draws, rules, counts) == []
    decreases |draws|
  {
    if |draws| > 0 {
      assert Pick(draws[0], rules, counts).None? by {
        forall j | 0 <= j < |draws[0].order|
          ensures !Eligible(rules, counts, draws[0].order[j], draws[0].date)
        {
          assert draws[0].order[j] in draws[0].order;
        }
      }
      AllBlockedAssignsNothing(draws[1..], rules, counts);
    }
  }

  /**
    The source's inner loop: scan the fellows in order and stop at the first
    one who is not blacked out on `date` and is under quota. It finds the
    scan's pick.
   */
  method ScanFellows(fellows: seq<Fellow>, date: Date, rules: Rules, counts: Table) returns (chosen: Option<Fellow>)
    requires forall f :: f in fellows ==> f in rules.quota
    ensures chosen == Pick(Draw(date, fellows), rules, counts)
  {
    var j := 0;
    while j < |fellows|
      invariant 0 <= j <= |fellows|
      invariant forall k :: 0 <= k < j ==> !Eligible(rules, counts, fellows[k], date)
    {
      var f := fellows[j];
      if date !in Lookup(rules.em, f) && date !in Lookup(rules.off, f) && Get(counts, f) < rules.quota[f] {
        return Some(f);
      }
      j := j + 1;
    }
    return None;
  }

  /**
    The source's outer loop: walk the draws in order, append the scan's pick
    for each and bump that fellow's count. The result is the walk `Assign`
    describes.
   */
  method AssignShifts(draws: seq<Draw>, rules: Rules) returns (schedule: seq<Entry>)
    requires QuotaCovers(rules, draws)
    ensures schedule == Assign(draws, rules)
  {
    schedule := [];
    var counts: Table := map[];
    var rest := draws;
    while |rest| > 0
      invariant QuotaCovers(rules, rest)
      invariant schedule + AssignFrom(rest, rules, counts) == Assign(draws, rules)
      decreases |rest|
    {
      var d := rest[0];
      StepOfWalk(rest, rules, counts);
      var chosen := ScanFellows(d.order, d.date, rules, counts);
      match chosen {
        case None =>
        case Some(f) =>
          AppendPick(schedule, d.date, f, AssignFrom(rest[1..], rules, Bump(counts, f)));
          schedule := schedule + [Entry(d.date, f)];
          counts := Bump(counts, f);
      }
      rest := rest[1..];
    }
  }

  /** `schedule.append(...)` seen from the back: the picked entry goes after what is already scheduled. */
  lemma AppendPick(schedule: seq<Entry>, d: Date, f: Fellow, tail: seq<Entry>)
    ensures schedule + Emit(d, Some(f), tail) == (schedule + [Entry(d, f)]) + tail
  {
  }

  /** One step of the walk: the first draw's output, then the walk over the others from the updated counts. */
  lemma StepOfWalk(draws: seq<Draw>, rules: Rules, counts: Table)
    requires QuotaCovers(rules, draws) && |draws| > 0
    ensures QuotaCovers(rules, draws[1..])
    ensures forall f :: f in draws[0].order ==> f in rules.quota
    ensures AssignFrom(draws, rules, counts)
         == Emit(draws[0].date, Pick(draws[0], rules, counts),
                 AssignFrom(draws[1..], rules, Charge(counts, Pick(draws[0], rules, counts))))
  {
  }
}
