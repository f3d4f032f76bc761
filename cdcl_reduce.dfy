/**
 * Specification functions for `_reduce_learned_clauses`: the
 * (activity, index) pairs of the learned clauses, their descending sort,
 * and the clauses chosen for deletion.
 */
module CdclReduce {
  import opened CdclDb

  /** An (activity, clause index) pair, compared as a Python tuple. */
  type Pair = (real, nat)

  predicate PairLe(x: Pair, y: Pair) {
    x.0 < y.0 || (x.0 == y.0 && x.1 <= y.1)
  }

  predicate SortedDesc(s: seq<Pair>) {
    forall i, j :: 0 <= i < j < |s| ==> PairLe(s[j], s[i])
  }

  /**
   * The pairs the first loop of `_reduce_learned_clauses` collects: one per
   * learned index whose offset from `base` (the number of original clauses)
   * indexes the clause activities.
   */
  function ActivityPairs(learned: seq<nat>, base: nat, act: seq<real>): seq<Pair> {
    if learned == [] then []
    else
      var r := ActivityPairs(learned[..|learned| - 1], base, act);
      var idx := learned[|learned| - 1];
      if base <= idx < base + |act| then r + [(act[idx - base], idx)] else r
  }

  /** A pair is collected exactly for a learned index in range, with that clause's activity. */
  lemma {:induction false} ActivityPairsSpec(learned: seq<nat>, base: nat, act: seq<real>)
    ensures forall p :: p in ActivityPairs(learned, base, act) <==>
      p.1 in learned && base <= p.1 < base + |act| && p.0 == act[p.1 - base]
    ensures |ActivityPairs(learned, base, act)| <= |learned|
  {
    if learned != [] {
      var init := learned[..|learned| - 1];
      ActivityPairsSpec(init, base, act);
      assert learned == init + [learned[|learned| - 1]];
      assert forall x :: x in learned <==> x in init || x == learned[|learned| - 1];
    }
  }

  /** Insert into a descending sequence. */
  function InsertDesc(x: Pair, s: seq<Pair>): seq<Pair> {
    if s == [] then [x]
    else if PairLe(s[0], x) then [x] + s
    else [s[0]] + InsertDesc(x, s[1..])
  }

  lemma InsertDescSpec(x: Pair, s: seq<Pair>)
    requires SortedDesc(s)
    ensures SortedDesc(InsertDesc(x, s))
    ensures multiset(InsertDesc(x, s)) == multiset(s) + multiset{x}
  {
    InsertDescPerm(x, s);
    InsertDescSorted(x, s);
  }

  /** Inserting adds exactly the one element. */
  lemma {:induction false} InsertDescPerm(x: Pair, s: seq<Pair>)
    ensures multiset(InsertDesc(x, s)) == multiset(s) + multiset{x}
  {
    if s != [] && !PairLe(s[0], x) {
      InsertDescPerm(x, s[1..]);
      assert s == [s[0]] + s[1..];
    }
  }

  /** Inserting into a descending sequence keeps it descending. */
  lemma {:induction false} InsertDescSorted(x: Pair, s: seq<Pair>)
    requires SortedDesc(s)
    ensures SortedDesc(InsertDesc(x, s))
  {
    if s != [] && !PairLe(s[0], x) {
      InsertDescSorted(x, s[1..]);
      InsertDescPerm(x, s[1..]);
      var r := InsertDesc(x, s[1..]);
      forall k | 0 <= k < |r| ensures PairLe(r[k], s[0]) {
        assert r[k] in multiset(r);
        if r[k] != x {
          assert r[k] in multiset(s[1..]);
          var m :| 0 <= m < |s[1..]| && s[1..][m] == r[k];
          assert s[m + 1] == r[k];
        }
      }
      assert InsertDesc(x, s) == [s[0]] + r;
    }
  }

  /** `list.sort(reverse=True)` on the pairs: descending tuple order. */
  function SortDesc(s: seq<Pair>): (r: seq<Pair>)
    ensures SortedDesc(r) && multiset(r) == multiset(s)
  {
    if s == [] then []
    else
      var rest := SortDesc(s[1..]);
      InsertDescSpec(s[0], rest);
      assert s == [s[0]] + s[1..];
      InsertDesc(s[0], rest)
  }

  /** The clause indices of `s[k..]` that are not the antecedent of a trail entry: the deletion set. */
  function VictimsFrom(s: seq<Pair>, k: nat, t: seq<TrailEntry>): set<nat>
    decreases |s| - k
  {
    if k >= |s| then {}
    else (if IsReason(t, s[k].1) then {} else {s[k].1}) + VictimsFrom(s, k + 1, t)
  }

  /** A victim is the index of a pair at or after `k` that is not a reason, and every such index is a victim. */
  lemma {:induction false} VictimsSpec(s: seq<Pair>, k: nat, t: seq<TrailEntry>)
    ensures forall x :: x in VictimsFrom(s, k, t) ==> !IsReason(t, x) && exists j :: k <= j < |s| && s[j].1 == x
    ensures forall j :: k <= j < |s| && !IsReason(t, s[j].1) ==> s[j].1 in VictimsFrom(s, k, t)
    decreases |s| - k
  {
    if k < |s| {
      VictimsSpec(s, k + 1, t);
    }
  }

  /** At most `|s| - k` clauses are deleted: at least the first `k` candidates survive. */
  lemma {:induction false} VictimsCard(s: seq<Pair>, k: nat, t: seq<TrailEntry>)
    requires k <= |s|
    ensures |VictimsFrom(s, k, t)| <= |s| - k
    decreases |s| - k
  {
    if k < |s| {
      VictimsCard(s, k + 1, t);
      var head: set<nat> := if IsReason(t, s[k].1) then {} else {s[k].1};
      assert |head + VictimsFrom(s, k + 1, t)| <= |head| + |VictimsFrom(s, k + 1, t)|;
    }
  }

  /**
   * Because clause activities are never raised above 0.0, the reduction
   * keeps the clauses with the largest indices, that is the newest ones.
   */
  lemma KeepsNewest(learned: seq<nat>, base: nat, act: seq<real>)
    requires forall i :: 0 <= i < |act| ==> act[i] == 0.0
    ensures var s := SortDesc(ActivityPairs(learned, base, act));
      forall i, j :: 0 <= i < |s| / 2 <= j < |s| ==> s[j].1 <= s[i].1
  {
    var pairs := ActivityPairs(learned, base, act);
    var s := SortDesc(pairs);
    ActivityPairsSpec(learned, base, act);
    forall i | 0 <= i < |s| ensures s[i].0 == 0.0 {
      assert s[i] in multiset(pairs);
    }
  }

  /** `[idx for idx in s if idx not in gone]`. */
  function Without(s: seq<nat>, gone: set<nat>): (r: seq<nat>)
    ensures forall x :: x in r <==> x in s && x !in gone
    ensures |r| <= |s|
  {
    if s == [] then []
    else (if s[0] in gone then [] else [s[0]]) + Without(s[1..], gone)
  }
}
