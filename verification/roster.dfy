/**
  Fellows and the per-fellow integer tables the scheduler keeps: quota tables
  and running shift counts. A table is read like Python's `defaultdict(int)`:
  a fellow that is not a key reads as zero.
 */
module Roster {
  import opened Seqs

  type Fellow = string

  /** A per-fellow table of counts or quotas. */
  type Table = map<Fellow, nat>

  /** The table's entry for `f`, zero when `f` is not a key. */
  function Get(m: Table, f: Fellow): nat {
    if f in m then m[f] else 0
  }

  /** `m[f] += 1` on a `defaultdict(int)`. */
  function Bump(m: Table, f: Fellow): (r: Table)
    ensures r.Keys == m.Keys + {f}
    ensures Get(r, f) == Get(m, f) + 1
    ensures forall g :: g != f ==> Get(r, g) == Get(m, g)
  {
    m[f := Get(m, f) + 1]
  }

  /** The sum of the table's entries over the fellows of `roster`. */
  function Tally(roster: seq<Fellow>, m: Table): nat {
    if |roster| == 0 then 0 else Get(m, roster[0]) + Tally(roster[1..], m)
  }

  /** Bumping one fellow raises the tally over a distinct roster by one if that fellow is on it, else not at all. */
  lemma {:induction false} TallyBump(roster: seq<Fellow>, m: Table, f: Fellow)
    requires Distinct(roster)
    ensures Tally(roster, Bump(m, f)) == Tally(roster, m) + (if f in roster then 1 else 0)
  {
    if |roster| > 0 {
      DistinctTail(roster);
      TallyBump(roster[1..], m, f);
      assert f in roster <==> f == roster[0] || f in roster[1..] by {
        assert roster == [roster[0]] + roster[1..];
      }
    }
  }

  /** A table that is entrywise at least another one over the roster has at least its tally. */
  lemma {:induction false} TallyMonotone(roster: seq<Fellow>, lo: Table, hi: Table)
    requires forall f :: f in roster ==> Get(lo, f) <= Get(hi, f)
    ensures Tally(roster, lo) <= Tally(roster, hi)
  {
    if |roster| > 0 {
      assert roster[0] in roster;
      assert forall f :: f in roster[1..] ==> f in roster;
      TallyMonotone(roster[1..], lo, hi);
    }
  }

  /** A table that gives every fellow of the roster the same value `c` tallies to `|roster| * c`. */
  lemma {:induction false} TallyConstant(roster: seq<Fellow>, m: Table, c: nat)
    requires forall f :: f in roster ==> Get(m, f) == c
    ensures Tally(roster, m) == |roster| * c
  {
    if |roster| > 0 {
      assert roster[0] in roster;
      assert forall f :: f in roster[1..] ==> f in roster;
      TallyConstant(roster[1..], m, c);
      OneMoreShare(|roster| - 1, c);
    }
  }

  /** `n + 1` shares of `c` are `n` shares and one more. */
  lemma OneMoreShare(n: nat, c: nat)
    ensures (n + 1) * c == n * c + c
  {
  }

  /** The tally over two rosters placed one after the other is the sum of their tallies. */
  lemma {:induction false} TallyConcat(a: seq<Fellow>, b: seq<Fellow>, m: Table)
    ensures Tally(a + b, m) == Tally(a, m) + Tally(b, m)
  {
    if |a| > 0 {
      assert (a + b)[0] == a[0];
      assert (a + b)[1..] == a[1..] + b;
      TallyConcat(a[1..], b, m);
    } else {
      assert a + b == b;
    }
  }
}
