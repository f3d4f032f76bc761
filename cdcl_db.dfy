/**
 * The CDCL solver's clause database, watch lists and trail, stated on
 * values: literal values over the 1-indexed `assignment` list, the
 * two-watched-literal index and its exact-count invariant, and the lookups
 * `_var_level` and `_get_antecedent`.
 */
module CdclDb {
  import opened Wrappers
  import opened Cnf
  import opened CdclHeap

  /** `self.assignment`: index `v` holds the value of variable `v`, or None. */
  type Values = seq<Option<bool>>

  /** One trail record `(lit, decision_level, antecedent_clause_idx)`. */
  datatype TrailEntry = TrailEntry(lit: int, level: nat, antecedent: Option<nat>)

  /** `_lit_value`: None for an unassigned variable, else the stored value, negated for a negative literal. */
  function LitValue(a: Values, lit: int): Option<bool>
    requires Abs(lit) < |a|
  {
    if a[Abs(lit)].None? then None
    else Some(if lit > 0 then a[Abs(lit)].value else !a[Abs(lit)].value)
  }

  /** The assigned part of the list, as the partial assignment of the shared CNF semantics. */
  function ModelOf(a: Values): Assignment {
    map v: nat | v < |a| && a[v].Some? :: a[v].value
  }

  /** `_lit_value` agrees with the literal semantics shared with DPLL. */
  lemma LitValueMeaning(a: Values, lit: int)
    requires Abs(lit) < |a|
    ensures LitValue(a, lit) == Some(true) <==> LitTrue(ModelOf(a), lit)
    ensures LitValue(a, lit) == Some(false) <==> LitFalse(ModelOf(a), lit)
    ensures LitValue(a, lit).None? <==> Abs(lit) !in ModelOf(a)
  {
  }

  /** Every literal of every clause names a variable of the value list. */
  predicate Bounded(cs: seq<Clause>, n: nat) {
    forall c, l :: c in cs && l in c ==> Abs(l) <= n
  }

  lemma BoundedAt(cs: seq<Clause>, n: nat, c: nat)
    requires Bounded(cs, n) && c < |cs|
    ensures forall l :: l in cs[c] ==> Abs(l) < n + 1
  {
    assert cs[c] in cs;
  }

  /** Emptying a clause keeps every literal bounded. */
  lemma BoundedEmpty(cs: seq<Clause>, n: nat, c: nat)
    requires Bounded(cs, n) && c < |cs|
    ensures Bounded(cs[c := []], n)
  {
    forall d, l | d in cs[c := []] && l in d ensures Abs(l) <= n {
      var k :| 0 <= k < |cs| && cs[c := []][k] == d;
      assert d == cs[k];
    }
  }

  /** `watch_list[l]` of the defaultdict: a missing literal has the empty list. */
  function Watches(wl: map<int, seq<nat>>, l: int): seq<nat> {
    if l in wl then wl[l] else []
  }

  /** How many times clause `c` sits in a list. */
  function Occurrences(s: seq<nat>, c: nat): nat {
    multiset(s)[c]
  }

  /** How many times clause `c` sits in the watch list of `l`. */
  function Count(wl: map<int, seq<nat>>, l: int, c: nat): nat {
    Occurrences(Watches(wl, l), c)
  }

  /** How many of the watch positions 0 and 1 of clause `c` hold literal `l`. */
  function WatchCount(cs: seq<Clause>, c: nat, l: int): nat {
    if c < |cs| then
      (if |cs[c]| >= 1 && cs[c][0] == l then 1 else 0) + (if |cs[c]| >= 2 && cs[c][1] == l then 1 else 0)
    else 0
  }

  /**
   * The watch index is exact: clause `c` occurs in `watch_list[l]` once for
   * each of its positions 0 and 1 holding `l`, and no other index occurs.
   */
  ghost predicate WatchesExact(cs: seq<Clause>, wl: map<int, seq<nat>>) {
    forall l: int, c: nat :: Count(wl, l, c) == WatchCount(cs, c, l)
  }

  /** A watcher of `l` can be inspected: position 0 exists, and a one-literal clause holds `l` there. */
  predicate WatchSafe(cs: seq<Clause>, c: nat, l: int) {
    c < |cs| && |cs[c]| >= 1 && (|cs[c]| == 1 ==> cs[c][0] == l)
  }

  lemma WatchedSafe(cs: seq<Clause>, wl: map<int, seq<nat>>, l: int, c: nat)
    requires WatchesExact(cs, wl) && c in Watches(wl, l)
    ensures WatchSafe(cs, c, l)
  {
    assert Count(wl, l, c) > 0;
  }

  /** `list.remove(x)`: the first occurrence of `x` dropped. */
  function RemoveFirst(s: seq<nat>, x: nat): (r: seq<nat>)
    requires x in s
    ensures multiset(r) == multiset(s) - multiset{x}
  {
    if s[0] == x then
      assert s == [s[0]] + s[1..];
      s[1..]
    else
      assert s == [s[0]] + s[1..];
      var r := [s[0]] + RemoveFirst(s[1..], x);
      assert multiset(r) == multiset{s[0]} + (multiset(s[1..]) - multiset{x});
      r
  }

  /** An append to the list of `k` adds one occurrence of `c0` there and changes no other count. */
  lemma CountAppend(wl: map<int, seq<nat>>, k: int, c0: nat, l: int, c: nat)
    ensures Count(wl[k := Watches(wl, k) + [c0]], l, c) == Count(wl, l, c) + (if l == k && c == c0 then 1 else 0)
  {
    if l == k {
      assert multiset(Watches(wl, k) + [c0]) == multiset(Watches(wl, k)) + multiset{c0};
    }
  }

  /** A removal from the list of `k` takes one occurrence of `c0` there and changes no other count. */
  lemma CountRemove(wl: map<int, seq<nat>>, k: int, c0: nat, l: int, c: nat)
    requires c0 in Watches(wl, k)
    ensures Count(wl[k := RemoveFirst(Watches(wl, k), c0)], l, c) == Count(wl, l, c) - (if l == k && c == c0 then 1 else 0)
  {
  }

  /** The present watchers of a clause are found in the lists of its watched literals. */
  lemma Watched(cs: seq<Clause>, wl: map<int, seq<nat>>, c: nat, w: nat)
    requires WatchesExact(cs, wl) && c < |cs| && w < 2 && w < |cs[c]|
    ensures c in Watches(wl, cs[c][w])
    ensures w == 1 && cs[c][0] == cs[c][1] ==> Count(wl, cs[c][1], c) == 2
  {
    assert Count(wl, cs[c][w], c) == WatchCount(cs, c, cs[c][w]);
  }

  /** The two list updates of a watch move in `_propagate`: `c` leaves `from`'s list and joins `to`'s. */
  function MoveWatch(wl: map<int, seq<nat>>, c: nat, from: int, to: int): map<int, seq<nat>>
    requires c in Watches(wl, from)
  {
    var wl1 := wl[from := RemoveFirst(Watches(wl, from), c)];
    wl1[to := Watches(wl1, to) + [c]]
  }

  /** Swapping watch position `w` with a later position `ni` moves one watch count from one literal to the other. */
  lemma WatchCountSwap(cs: seq<Clause>, c: nat, w: nat, ni: nat, l: int, d: nat)
    requires c < |cs| && w < 2 && 2 <= ni < |cs[c]|
    ensures WatchCount(cs[c := Swap(cs[c], w, ni)], d, l) ==
      WatchCount(cs, d, l) - (if d == c && l == cs[c][w] then 1 else 0) + (if d == c && l == cs[c][ni] then 1 else 0)
  {
  }

  /** Moving the watch of position `w` to position `ni >= 2` keeps the index exact. */
  lemma WatchMove(cs: seq<Clause>, wl: map<int, seq<nat>>, c: nat, w: nat, ni: nat)
    requires WatchesExact(cs, wl) && c < |cs| && w < 2 && 2 <= ni < |cs[c]|
    ensures c in Watches(wl, cs[c][w])
    ensures WatchesExact(cs[c := Swap(cs[c], w, ni)], MoveWatch(wl, c, cs[c][w], cs[c][ni]))
  {
    var from := cs[c][w];
    var to := cs[c][ni];
    Watched(cs, wl, c, w);
    var cs' := cs[c := Swap(cs[c], w, ni)];
    var wl1 := wl[from := RemoveFirst(Watches(wl, from), c)];
    var wl' := MoveWatch(wl, c, from, to);
    forall l: int, d: nat ensures Count(wl', l, d) == WatchCount(cs', d, l) {
      assert Count(wl, l, d) == WatchCount(cs, d, l);
      CountRemove(wl, from, c, l, d);
      CountAppend(wl1, to, c, l, d);
      WatchCountSwap(cs, c, w, ni, l, d);
    }
  }

  /** The two watch appends of `_init_data_structures` and `_add_learned_clause` for a new clause index. */
  function AddWatches(wl: map<int, seq<nat>>, idx: nat, c: Clause): map<int, seq<nat>> {
    var wl1 := if |c| >= 1 then wl[c[0] := Watches(wl, c[0]) + [idx]] else wl;
    if |c| >= 2 then wl1[c[1] := Watches(wl1, c[1]) + [idx]] else wl1
  }

  /** No clauses and no watches agree. */
  lemma WatchesNone()
    ensures WatchesExact([], map[])
  {
  }

  /** Appending clause `c` leaves the watch counts of the old clauses alone and counts its own positions. */
  lemma WatchCountAppend(cs: seq<Clause>, c: Clause, l: int, d: nat)
    ensures WatchCount(cs + [c], d, l) == WatchCount(cs, d, l) +
      (if d == |cs| then (if |c| >= 1 && c[0] == l then 1 else 0) + (if |c| >= 2 && c[1] == l then 1 else 0) else 0)
  {
    if d < |cs| {
      assert (cs + [c])[d] == cs[d];
    }
  }

  /** Appending a clause and watching its first two literals keeps the index exact. */
  lemma WatchAdd(cs: seq<Clause>, wl: map<int, seq<nat>>, c: Clause)
    requires WatchesExact(cs, wl)
    ensures WatchesExact(cs + [c], AddWatches(wl, |cs|, c))
  {
    var cs' := cs + [c];
    var wl' := AddWatches(wl, |cs|, c);
    var wl1 := if |c| >= 1 then wl[c[0] := Watches(wl, c[0]) + [|cs|]] else wl;
    forall l: int, d: nat ensures Count(wl', l, d) == WatchCount(cs', d, l) {
      assert Count(wl, l, d) == WatchCount(cs, d, l);
      if |c| >= 1 {
        CountAppend(wl, c[0], |cs|, l, d);
      }
      if |c| >= 2 {
        CountAppend(wl1, c[1], |cs|, l, d);
      }
      WatchCountAppend(cs, c, l, d);
    }
  }

  /** The guarded removals of `_reduce_learned_clauses` for clause `c` with literals `cl`. */
  function DropWatches(wl: map<int, seq<nat>>, c: nat, cl: Clause): map<int, seq<nat>> {
    var wl1 := if |cl| >= 1 && c in Watches(wl, cl[0]) then wl[cl[0] := RemoveFirst(Watches(wl, cl[0]), c)] else wl;
    if |cl| >= 2 && c in Watches(wl1, cl[1]) then wl1[cl[1] := RemoveFirst(Watches(wl1, cl[1]), c)] else wl1
  }

  /** Emptying clause `c` drops exactly its own watch counts. */
  lemma WatchCountEmpty(cs: seq<Clause>, c: nat, l: int, d: nat)
    requires c < |cs|
    ensures WatchCount(cs[c := []], d, l) == if d == c then 0 else WatchCount(cs, d, l)
  {
  }

  /** Emptying a clause after dropping its two watches keeps the index exact. */
  lemma WatchDrop(cs: seq<Clause>, wl: map<int, seq<nat>>, c: nat)
    requires WatchesExact(cs, wl) && c < |cs|
    ensures WatchesExact(cs[c := []], DropWatches(wl, c, cs[c]))
  {
    var cl := cs[c];
    var cs' := cs[c := []];
    var wl' := DropWatches(wl, c, cl);
    var wl1 := if |cl| >= 1 && c in Watches(wl, cl[0]) then wl[cl[0] := RemoveFirst(Watches(wl, cl[0]), c)] else wl;
    if |cl| >= 1 {
      Watched(cs, wl, c, 0);
    }
    if |cl| >= 2 {
      Watched(cs, wl, c, 1);
      CountRemove(wl, cl[0], c, cl[1], c);
      assert Count(wl1, cl[1], c) > 0;
    }
    forall l: int, d: nat ensures Count(wl', l, d) == WatchCount(cs', d, l) {
      assert Count(wl, l, d) == WatchCount(cs, d, l);
      if |cl| >= 1 {
        CountRemove(wl, cl[0], c, l, d);
      }
      if |cl| >= 2 {
        CountRemove(wl1, cl[1], c, l, d);
      }
      WatchCountEmpty(cs, c, l, d);
    }
  }

  /** The variables of a run of trail entries. */
  function VarsOf(t: seq<TrailEntry>): set<nat> {
    set i | 0 <= i < |t| :: Abs(t[i].lit)
  }

  /**
   * Trail consistency: every entry's literal is a nonzero literal over the
   * value list and is currently true, and no variable is on the trail twice.
   */
  predicate TrailOk(t: seq<TrailEntry>, a: Values) {
    (forall i :: 0 <= i < |t| ==> t[i].lit != 0 && Abs(t[i].lit) < |a| && LitValue(a, t[i].lit) == Some(true)) &&
    (forall i, j :: 0 <= i < j < |t| ==> Abs(t[i].lit) != Abs(t[j].lit))
  }

  /** Every antecedent on the trail indexes the clause database. */
  predicate ReasonsInRange(t: seq<TrailEntry>, cs: seq<Clause>) {
    forall i :: 0 <= i < |t| && t[i].antecedent.Some? ==> t[i].antecedent.value < |cs|
  }

  /** `_var_level`: the level of the first trail entry on `v`, or -1. */
  function VarLevel(t: seq<TrailEntry>, v: nat): int {
    if |t| == 0 then -1
    else if Abs(t[0].lit) == v then t[0].level
    else VarLevel(t[1..], v)
  }

  /** `_var_level` is -1 exactly for a variable not on the trail, and otherwise the level of an entry on it. */
  lemma {:induction false} VarLevelSpec(t: seq<TrailEntry>, v: nat)
    ensures VarLevel(t, v) == -1 <==> v !in VarsOf(t)
    ensures VarLevel(t, v) >= 0 ==> exists i :: 0 <= i < |t| && Abs(t[i].lit) == v && t[i].level == VarLevel(t, v)
  {
    if |t| > 0 && Abs(t[0].lit) != v {
      VarLevelSpec(t[1..], v);
      var r := VarLevel(t[1..], v);
      assert VarsOf(t) == {Abs(t[0].lit)} + VarsOf(t[1..]) by {
        forall x | x in VarsOf(t) ensures x in {Abs(t[0].lit)} + VarsOf(t[1..]) {
          var i :| 0 <= i < |t| && x == Abs(t[i].lit);
          if i > 0 { assert t[1..][i - 1] == t[i]; }
        }
        forall x | x in VarsOf(t[1..]) ensures x in VarsOf(t) {
          var i :| 0 <= i < |t[1..]| && x == Abs(t[1..][i].lit);
          assert t[1..][i] == t[i + 1];
        }
      }
      if r >= 0 {
        var i :| 0 <= i < |t[1..]| && Abs(t[1..][i].lit) == v && t[1..][i].level == r;
        assert t[i + 1] == t[1..][i];
      }
    } else if |t| > 0 {
      assert t[0].level >= 0;
    }
  }


  /** `_get_antecedent`: the antecedent of the first trail entry on `v`, or None. */
  function Antecedent(t: seq<TrailEntry>, v: nat): (r: Option<nat>)
    ensures r.Some? ==> exists i :: 0 <= i < |t| && Abs(t[i].lit) == v && t[i].antecedent == r
  {
    if |t| == 0 then None
    else if Abs(t[0].lit) == v then t[0].antecedent
    else
      var r := Antecedent(t[1..], v);
      if r.Some? then
        ghost var i :| 0 <= i < |t[1..]| && Abs(t[1..][i].lit) == v && t[1..][i].antecedent == r;
        assert t[i + 1] == t[1..][i];
        r
      else r
  }

  /** With every variable on the trail at most once, `_var_level` and `_get_antecedent` read that entry. */
  lemma {:induction false} LookupAt(t: seq<TrailEntry>, i: nat)
    requires i < |t| && forall j, k :: 0 <= j < k < |t| ==> Abs(t[j].lit) != Abs(t[k].lit)
    ensures VarLevel(t, Abs(t[i].lit)) == t[i].level
    ensures Antecedent(t, Abs(t[i].lit)) == t[i].antecedent
  {
    if i > 0 {
      assert Abs(t[0].lit) != Abs(t[i].lit);
      assert t[1..][i - 1] == t[i];
      LookupAt(t[1..], i - 1);
    }
  }

  /** `any(antecedent == idx for ... in self.trail ...)` */
  predicate IsReason(t: seq<TrailEntry>, idx: nat) {
    exists i :: 0 <= i < |t| && t[i].antecedent == Some(idx)
  }

  /** The variables 1..n-1: the candidates a consistent trail draws from. */
  function Range(n: nat): (r: set<nat>)
    ensures forall v :: v in r <==> 1 <= v < n
  {
    if n <= 1 then {} else Range(n - 1) + {n - 1}
  }

  lemma {:induction false} RangeCard(n: nat)
    ensures |Range(n)| == if n == 0 then 0 else n - 1
  {
    if n > 1 {
      RangeCard(n - 1);
      assert Range(n) == Range(n - 1) + {n - 1};
    } else {
      assert Range(n) == {};
    }
  }

  /** A trail with distinct variables has as many variables as entries. */
  lemma {:induction false} VarsOfCard(t: seq<TrailEntry>)
    requires forall i, j :: 0 <= i < j < |t| ==> Abs(t[i].lit) != Abs(t[j].lit)
    ensures |VarsOf(t)| == |t|
  {
    if |t| > 0 {
      var s := t[..|t| - 1];
      VarsOfCard(s);
      assert VarsOf(t) == VarsOf(s) + {Abs(t[|t| - 1].lit)} by {
        forall x | x in VarsOf(t) ensures x in VarsOf(s) + {Abs(t[|t| - 1].lit)} {
          var i :| 0 <= i < |t| && x == Abs(t[i].lit);
          if i < |t| - 1 { assert s[i] == t[i]; }
        }
      }
      assert Abs(t[|t| - 1].lit) !in VarsOf(s) by {
        forall i | 0 <= i < |s| ensures Abs(s[i].lit) != Abs(t[|t| - 1].lit) {
          assert s[i] == t[i];
        }
      }
    }
  }

  /** A consistent trail has fewer entries than the value list: it can only grow to the number of variables. */
  lemma TrailLength(t: seq<TrailEntry>, a: Values)
    requires TrailOk(t, a)
    ensures |t| < |a| || |a| == 0
    ensures |t| == |a| - 1 ==> forall v :: 1 <= v < |a| ==> a[v].Some?
  {
    VarsOfCard(t);
    RangeCard(|a|);
    assert VarsOf(t) <= Range(|a|);
    assert |VarsOf(t)| <= |Range(|a|)| by {
      assert |Range(|a|)| == |VarsOf(t)| + |Range(|a|) - VarsOf(t)|;
    }
    if |t| == |a| - 1 {
      assert |Range(|a|) - VarsOf(t)| == 0 by {
        assert |Range(|a|)| == |VarsOf(t)| + |Range(|a|) - VarsOf(t)|;
      }
      forall v | 1 <= v < |a| ensures a[v].Some? {
        assert v in Range(|a|);
        assert v in VarsOf(t);
        var i :| 0 <= i < |t| && v == Abs(t[i].lit);
      }
    }
  }
  /** Every literal of the clause is false under the values. */
  predicate Falsified(cl: Clause, a: Values) {
    forall l :: l in cl ==> Abs(l) < |a| && LitValue(a, l) == Some(false)
  }

  /** `a2` keeps every value `a1` has set; it may set more. */
  predicate ValuesExtend(a2: Values, a1: Values) {
    |a2| == |a1| && forall v :: 0 <= v < |a1| && a1[v].Some? ==> a2[v] == a1[v]
  }

  /** `cl` forces `lit`: it contains `lit`, and all of its other literals are false. */
  predicate ReasonFor(cl: Clause, lit: int, a: Values) {
    lit in cl && forall m :: m in cl && m != lit ==> Abs(m) < |a| && LitValue(a, m) == Some(false)
  }

  /** A reason stays a reason when its clause is permuted and more variables are assigned. */
  lemma ReasonKept(cl: Clause, cl2: Clause, lit: int, a: Values, a2: Values)
    requires ReasonFor(cl, lit, a) && multiset(cl2) == multiset(cl) && ValuesExtend(a2, a)
    ensures ReasonFor(cl2, lit, a2)
  {
    assert lit in multiset(cl);
    forall m | m in cl2 && m != lit ensures Abs(m) < |a2| && LitValue(a2, m) == Some(false) {
      assert m in multiset(cl2);
      assert m in cl;
    }
  }

  /** A falsified clause stays falsified when it is permuted and more variables are assigned. */
  lemma FalsifiedKept(cl: Clause, cl2: Clause, a: Values, a2: Values)
    requires Falsified(cl, a) && multiset(cl2) == multiset(cl) && ValuesExtend(a2, a)
    ensures Falsified(cl2, a2)
  {
    forall m | m in cl2 ensures Abs(m) < |a2| && LitValue(a2, m) == Some(false) {
      assert m in multiset(cl2);
      assert m in cl;
    }
  }

  /** Pushing a true literal on an unassigned variable keeps the trail consistent. */
  lemma TrailPush(t: seq<TrailEntry>, a: Values, e: TrailEntry)
    requires TrailOk(t, a) && e.lit != 0 && Abs(e.lit) < |a| && a[Abs(e.lit)].None?
    ensures TrailOk(t + [e], a[Abs(e.lit) := Some(e.lit > 0)])
    ensures ValuesExtend(a[Abs(e.lit) := Some(e.lit > 0)], a)
  {
    var a2 := a[Abs(e.lit) := Some(e.lit > 0)];
    var t2 := t + [e];
    forall i | 0 <= i < |t2| ensures t2[i].lit != 0 && Abs(t2[i].lit) < |a2| && LitValue(a2, t2[i].lit) == Some(true) {
      if i < |t| {
        assert t2[i] == t[i];
        assert Abs(t[i].lit) != Abs(e.lit);
      }
    }
  }

  /** A consistent trail stays consistent when more variables are assigned. */
  lemma TrailExtend(t: seq<TrailEntry>, a: Values, a2: Values)
    requires TrailOk(t, a) && ValuesExtend(a2, a)
    ensures TrailOk(t, a2)
  {
    forall i | 0 <= i < |t| ensures LitValue(a2, t[i].lit) == Some(true) {
      assert LitValue(a, t[i].lit) == Some(true);
    }
  }

  /** Swapping two literals of a clause keeps every literal within the variable range. */
  lemma BoundedSwap(cs: seq<Clause>, n: nat, c: nat, i: nat, j: nat)
    requires Bounded(cs, n) && c < |cs| && i < |cs[c]| && j < |cs[c]|
    ensures Bounded(cs[c := Swap(cs[c], i, j)], n)
  {
    var cs2 := cs[c := Swap(cs[c], i, j)];
    forall d, l | d in cs2 && l in d ensures Abs(l) <= n {
      if d == Swap(cs[c], i, j) {
        assert l in multiset(d);
        assert l in cs[c];
      }
    }
  }

  /** The first position at or after `i` whose literal is not false: the search for a new watch. */
  function FirstNonFalse(a: Values, cl: Clause, i: nat): (r: Option<nat>)
    requires forall l :: l in cl ==> Abs(l) < |a|
    ensures r.Some? ==> i <= r.value < |cl| && LitValue(a, cl[r.value]) != Some(false)
    ensures r.Some? ==> forall k :: i <= k < r.value ==> LitValue(a, cl[k]) == Some(false)
    ensures r.None? ==> forall k :: i <= k < |cl| ==> LitValue(a, cl[k]) == Some(false)
    decreases |cl| - i
  {
    if i >= |cl| then None
    else if LitValue(a, cl[i]) != Some(false) then Some(i)
    else FirstNonFalse(a, cl, i + 1)
  }

  /** What `_propagate` does with one clause watching the now-false literal `negLit`. */
  datatype WatchAction =
    | NotWatching          // neither position 0 nor 1 holds `negLit`
    | OtherTrue            // the other watched literal is true: keep the watch
    | Moved(w: nat, ni: nat) // position `w` is exchanged with the non-false position `ni`
    | Conflict             // every literal is false
    | Implied(lit: int)    // the other watched literal becomes true
    | FallThrough          // no other watched literal: nothing happens

  /**
   * One visit of a watching clause. The other watched literal is taken as 0
   * when the clause has one literal: `None` and the literal 0 are both falsy,
   * and every use of it is guarded by truthiness.
   */
  function WatchStep(cl: Clause, a: Values, negLit: int): (r: WatchAction)
    requires |cl| >= 1 && (|cl| == 1 ==> cl[0] == negLit)
    requires forall l :: l in cl ==> Abs(l) < |a|
    ensures r.Moved? ==> r.w < 2 && 2 <= r.ni < |cl| && cl[r.w] == negLit && LitValue(a, cl[r.ni]) != Some(false)
  {
    if cl[0] != negLit && cl[1] != negLit then NotWatching
    else
      var w: nat := if cl[0] == negLit then 0 else 1;
      var other := if 1 - w < |cl| then cl[1 - w] else 0;
      if other != 0 && LitValue(a, other) == Some(true) then OtherTrue
      else match FirstNonFalse(a, cl, 2)
        case Some(ni) => Moved(w, ni)
        case None =>
          if other != 0 && LitValue(a, other) == Some(false) then Conflict
          else if other != 0 then Implied(other)
          else FallThrough
  }

  /** A clause the visit reports as a conflict is falsified by the values. */
  lemma WatchConflict(cl: Clause, a: Values, negLit: int)
    requires |cl| >= 1 && (|cl| == 1 ==> cl[0] == negLit) && forall l :: l in cl ==> Abs(l) < |a|
    requires Abs(negLit) < |a| && LitValue(a, negLit) == Some(false) && WatchStep(cl, a, negLit) == Conflict
    ensures |cl| >= 2 && Falsified(cl, a)
  {
    forall l | l in cl ensures LitValue(a, l) == Some(false) {
      var k :| 0 <= k < |cl| && cl[k] == l;
    }
  }

  /** The literal a visit implies is unassigned and is forced by its clause. */
  lemma WatchImplied(cl: Clause, a: Values, negLit: int, x: int)
    requires |cl| >= 1 && (|cl| == 1 ==> cl[0] == negLit) && forall l :: l in cl ==> Abs(l) < |a|
    requires Abs(negLit) < |a| && LitValue(a, negLit) == Some(false) && WatchStep(cl, a, negLit) == Implied(x)
    ensures x != 0 && LitValue(a, x).None? && a[Abs(x)].None?
    ensures ReasonFor(cl, x, a)
  {
    var w: nat := if cl[0] == negLit then 0 else 1;
    assert x == cl[1 - w];
    forall m | m in cl && m != x ensures LitValue(a, m) == Some(false) {
      var k :| 0 <= k < |cl| && cl[k] == m;
    }
  }

  /** A visit that keeps the watch because of the other watched literal leaves a satisfied clause. */
  lemma WatchOtherTrue(cl: Clause, a: Values, negLit: int)
    requires |cl| >= 1 && (|cl| == 1 ==> cl[0] == negLit) && forall l :: l in cl ==> Abs(l) < |a|
    requires WatchStep(cl, a, negLit) == OtherTrue
    ensures exists l :: l in cl && LitValue(a, l) == Some(true)
  {
    var w: nat := if cl[0] == negLit then 0 else 1;
    assert cl[1 - w] in cl;
  }

  /** The watch snapshot still to be visited is covered by the live watch list of `negLit`. */
  ghost predicate Covers(rest: seq<nat>, wl: map<int, seq<nat>>, negLit: int) {
    forall c: nat :: Occurrences(rest, c) <= Count(wl, negLit, c)
  }

  /** The head of a covered snapshot is on the live watch list. */
  lemma CoversHead(rest: seq<nat>, wl: map<int, seq<nat>>, negLit: int)
    requires |rest| > 0 && Covers(rest, wl, negLit)
    ensures rest[0] in Watches(wl, negLit)
    ensures Covers(rest[1..], wl, negLit)
  {
    assert rest == [rest[0]] + rest[1..];
    assert Occurrences(rest, rest[0]) > 0;
    assert Count(wl, negLit, rest[0]) > 0;
    forall c: nat ensures Occurrences(rest[1..], c) <= Count(wl, negLit, c) {
      assert Occurrences(rest, c) == Occurrences(rest[1..], c) + (if c == rest[0] then 1 else 0);
    }
  }

  /** Moving the head's watch away from `negLit` keeps the rest of the snapshot covered. */
  lemma CoversMove(rest: seq<nat>, wl: map<int, seq<nat>>, negLit: int, to: int)
    requires |rest| > 0 && Covers(rest, wl, negLit) && to != negLit
    ensures rest[0] in Watches(wl, negLit)
    ensures Covers(rest[1..], MoveWatch(wl, rest[0], negLit, to), negLit)
  {
    var c0 := rest[0];
    CoversHead(rest, wl, negLit);
    var wl1 := wl[negLit := RemoveFirst(Watches(wl, negLit), c0)];
    forall c: nat ensures Occurrences(rest[1..], c) <= Count(MoveWatch(wl, c0, negLit, to), negLit, c) {
      assert rest == [rest[0]] + rest[1..];
      assert Occurrences(rest, c) == Occurrences(rest[1..], c) + (if c == c0 then 1 else 0);
      CountRemove(wl, negLit, c0, negLit, c);
      CountAppend(wl1, to, c0, negLit, c);
    }
  }
  /** The variables of a trail suffix: its first entry's and the rest's. */
  lemma VarsOfSplit(t: seq<TrailEntry>, i: nat)
    requires i < |t|
    ensures VarsOf(t[i..]) == {Abs(t[i].lit)} + VarsOf(t[i + 1..])
  {
    var s := t[i..];
    assert s == [t[i]] + t[i + 1..];
    forall x | x in VarsOf(s) ensures x in {Abs(t[i].lit)} + VarsOf(t[i + 1..]) {
      var j :| 0 <= j < |s| && x == Abs(s[j].lit);
      if j > 0 { assert s[j] == t[i + 1..][j - 1]; }
    }
    forall x | x in VarsOf(t[i + 1..]) ensures x in VarsOf(s) {
      var j :| 0 <= j < |t[i + 1..]| && x == Abs(t[i + 1..][j].lit);
      assert t[i + 1..][j] == s[j + 1];
    }
  }

  /** Cutting the trail and unassigning exactly the removed variables leaves a consistent trail. */
  lemma TrailCut(t: seq<TrailEntry>, a: Values, a2: Values, cut: nat)
    requires TrailOk(t, a) && cut <= |t| && |a2| == |a|
    requires UnassignedExactly(a2, a, VarsOf(t[cut..]))
    ensures TrailOk(t[..cut], a2)
  {
    forall i | 0 <= i < cut ensures LitValue(a2, t[i].lit) == Some(true) {
      var v := Abs(t[i].lit);
      forall j | 0 <= j < |t[cut..]| ensures Abs(t[cut..][j].lit) != v {
        assert t[cut..][j] == t[cut + j];
      }
      assert v !in VarsOf(t[cut..]);
    }
  }

  /** A prefix of a trail keeps its antecedents in range. */
  lemma TrailOkPrefix(t: seq<TrailEntry>, a: Values, k: nat)
    requires TrailOk(t, a) && k <= |t|
    ensures TrailOk(t[..k], a)
  {
    assert forall i :: 0 <= i < k ==> t[..k][i] == t[i];
  }

  lemma ReasonsPrefix(t: seq<TrailEntry>, cs: seq<Clause>, k: nat)
    requires ReasonsInRange(t, cs) && k <= |t|
    ensures ReasonsInRange(t[..k], cs)
  {
    forall i | 0 <= i < k && t[..k][i].antecedent.Some? ensures t[..k][i].antecedent.value < |cs| {
      assert t[..k][i] == t[i];
    }
  }
  /** The values with exactly the variables of `gone` unassigned. */
  predicate UnassignedExactly(a: Values, a0: Values, gone: set<nat>) {
    |a| == |a0| && forall v :: 0 <= v < |a| ==> a[v] == if v in gone then None else a0[v]
  }

  /** Unassigning one more variable adds it to the unassigned set. */
  lemma UnassignStep(a: Values, a0: Values, gone: set<nat>, v: nat)
    requires UnassignedExactly(a, a0, gone) && v < |a|
    ensures UnassignedExactly(a[v := None], a0, gone + {v})
  {
  }
  /** `cs2` holds the same clauses as `cs`, each possibly permuted; clauses shorter than 3 are untouched. */
  predicate Permuted(cs2: seq<Clause>, cs: seq<Clause>) {
    |cs2| == |cs| &&
    forall i :: 0 <= i < |cs| ==> multiset(cs2[i]) == multiset(cs[i]) && (|cs[i]| < 3 ==> cs2[i] == cs[i])
  }

  lemma PermutedSwap(cs: seq<Clause>, c: nat, i: nat, j: nat)
    requires c < |cs| && i < |cs[c]| && 2 <= j < |cs[c]|
    ensures Permuted(cs[c := Swap(cs[c], i, j)], cs)
  {
  }

  lemma PermutedTrans(cs3: seq<Clause>, cs2: seq<Clause>, cs: seq<Clause>)
    requires Permuted(cs3, cs2) && Permuted(cs2, cs)
    ensures Permuted(cs3, cs)
  {
  }

  /** The trail entries from `from` on were implied at level `lvl`, each by a clause that forces it. */
  predicate NewReasons(t: seq<TrailEntry>, from: nat, cs: seq<Clause>, a: Values, lvl: nat) {
    forall i :: from <= i < |t| ==>
      t[i].level == lvl && t[i].antecedent.Some? && t[i].antecedent.value < |cs| &&
      ReasonFor(cs[t[i].antecedent.value], t[i].lit, a)
  }

  /** Implied entries keep their reasons when clauses are permuted and more variables are assigned. */
  lemma NewReasonsKept(t: seq<TrailEntry>, from: nat, cs: seq<Clause>, cs2: seq<Clause>, a: Values, a2: Values, lvl: nat)
    requires NewReasons(t, from, cs, a, lvl) && Permuted(cs2, cs) && ValuesExtend(a2, a)
    ensures NewReasons(t, from, cs2, a2, lvl)
  {
    forall i | from <= i < |t| ensures ReasonFor(cs2[t[i].antecedent.value], t[i].lit, a2) {
      var c := t[i].antecedent.value;
      ReasonKept(cs[c], cs2[c], t[i].lit, a, a2);
    }
  }

  /** Pushing an implied entry whose clause forces it extends the implied part of the trail. */
  lemma NewReasonsPush(t: seq<TrailEntry>, from: nat, cs: seq<Clause>, a: Values, lvl: nat, e: TrailEntry)
    requires NewReasons(t, from, cs, a, lvl) && from <= |t| && e.lit != 0 && Abs(e.lit) < |a| && a[Abs(e.lit)].None?
    requires e.level == lvl && e.antecedent.Some? && e.antecedent.value < |cs| && ReasonFor(cs[e.antecedent.value], e.lit, a)
    ensures NewReasons(t + [e], from, cs, a[Abs(e.lit) := Some(e.lit > 0)], lvl)
  {
    var a2 := a[Abs(e.lit) := Some(e.lit > 0)];
    assert ValuesExtend(a2, a);
    var t2 := t + [e];
    forall i | from <= i < |t2| ensures ReasonFor(cs[t2[i].antecedent.value], t2[i].lit, a2) {
      if i < |t| {
        assert t2[i] == t[i];
        ReasonKept(cs[t[i].antecedent.value], cs[t[i].antecedent.value], t[i].lit, a, a2);
      } else {
        ReasonKept(cs[e.antecedent.value], cs[e.antecedent.value], e.lit, a, a2);
      }
    }
  }

  /** Permuting clauses keeps every literal within the variable range. */
  lemma BoundedPermuted(cs2: seq<Clause>, cs: seq<Clause>, n: nat)
    requires Bounded(cs, n) && Permuted(cs2, cs)
    ensures Bounded(cs2, n)
  {
    forall d, l | d in cs2 && l in d ensures Abs(l) <= n {
      var i :| 0 <= i < |cs2| && cs2[i] == d;
      assert l in multiset(cs[i]);
      assert cs[i] in cs;
    }
  }
  /**
   * The state `(t, a, cs, p)` was reached from `(t0, a0, cs0, p0)` by
   * propagation at level `lvl`: the old trail is a prefix, every later entry
   * is forced by a clause, one propagation is counted per entry, values are
   * only added and each clause is only permuted.
   */
  predicate Progress(t0: seq<TrailEntry>, a0: Values, cs0: seq<Clause>, p0: nat,
                     t: seq<TrailEntry>, a: Values, cs: seq<Clause>, p: nat, lvl: nat) {
    |t0| <= |t| && t[..|t0|] == t0 && NewReasons(t, |t0|, cs, a, lvl) &&
    p == p0 + (|t| - |t0|) && ValuesExtend(a, a0) && Permuted(cs, cs0)
  }

  lemma ProgressTrans(t0: seq<TrailEntry>, a0: Values, cs0: seq<Clause>, p0: nat,
                      t1: seq<TrailEntry>, a1: Values, cs1: seq<Clause>, p1: nat,
                      t: seq<TrailEntry>, a: Values, cs: seq<Clause>, p: nat, lvl: nat)
    requires Progress(t0, a0, cs0, p0, t1, a1, cs1, p1, lvl) && Progress(t1, a1, cs1, p1, t, a, cs, p, lvl)
    ensures Progress(t0, a0, cs0, p0, t, a, cs, p, lvl)
  {
    NewReasonsKept(t1, |t0|, cs1, cs, a1, a, lvl);
    assert t[..|t0|] == t1[..|t0|];
    forall i | |t0| <= i < |t| ensures t[i].level == lvl && t[i].antecedent.Some? && t[i].antecedent.value < |cs| &&
      ReasonFor(cs[t[i].antecedent.value], t[i].lit, a) {
      if i < |t1| {
        assert t[i] == t1[i];
      }
    }
  }
  /** The literal of every unit clause among the first `upTo` clauses is true. */
  predicate UnitsTrue(cs: seq<Clause>, a: Values, upTo: nat)
    requires upTo <= |cs|
  {
    forall k :: 0 <= k < upTo && |cs[k]| == 1 ==> Abs(cs[k][0]) < |a| && LitValue(a, cs[k][0]) == Some(true)
  }

  lemma UnitsTrueKept(cs: seq<Clause>, cs2: seq<Clause>, a: Values, a2: Values, upTo: nat)
    requires upTo <= |cs| && UnitsTrue(cs, a, upTo) && Permuted(cs2, cs) && ValuesExtend(a2, a)
    ensures UnitsTrue(cs2, a2, upTo)
  {
    forall k | 0 <= k < upTo && |cs2[k]| == 1 ensures Abs(cs2[k][0]) < |a2| && LitValue(a2, cs2[k][0]) == Some(true) {
      assert |cs[k]| == |multiset(cs[k])| == |multiset(cs2[k])| == |cs2[k]|;
      assert cs2[k] == cs[k];
    }
  }

  /** `c` is a unit clause over a variable `a` leaves unassigned: the unit scan of `_initial_propagate` binds it. */
  predicate UnitFree(c: Clause, a: Values) {
    |c| == 1 && Abs(c[0]) < |a| && a[Abs(c[0])].None?
  }

  /** `c` is a unit clause whose variable `a` binds against its literal: the unit scan stops at it. */
  predicate UnitClash(c: Clause, a: Values) {
    |c| == 1 && Abs(c[0]) < |a| && a[Abs(c[0])].Some? && a[Abs(c[0])].value != (c[0] > 0)
  }

  /**
   * The values and the new trail entries the unit scan of `_initial_propagate`
   * leaves after the first `n` clauses, when none of them clashes: in index
   * order, each unit clause over an unassigned variable binds the variable to
   * its literal's sign and pushes `(lit, 0, idx)`.
   */
  function ScanUnits(cs: seq<Clause>, a: Values, n: nat): (r: (Values, seq<TrailEntry>))
    requires n <= |cs|
    ensures ValuesExtend(r.0, a) && |r.1| <= n
  {
    if n == 0 then (a, [])
    else
      var prev := ScanUnits(cs, a, n - 1);
      var c := cs[n - 1];
      if UnitFree(c, prev.0) then (prev.0[Abs(c[0]) := Some(c[0] > 0)], prev.1 + [TrailEntry(c[0], 0, Some(n - 1))])
      else prev
  }

  /**
   * Every entry of `es` is at level 0 and has as antecedent one of the first
   * `n` clauses, a unit clause consisting of exactly its literal, and the
   * antecedents strictly increase along `es`.
   */
  predicate ScanPushed(cs: seq<Clause>, es: seq<TrailEntry>, n: nat) {
    (forall k :: 0 <= k < |es| ==>
      es[k].level == 0 && es[k].antecedent.Some? && es[k].antecedent.value < n && es[k].antecedent.value < |cs| &&
      cs[es[k].antecedent.value] == [es[k].lit]) &&
    (forall j, k :: 0 <= j < k < |es| && es[j].antecedent.Some? && es[k].antecedent.Some? ==>
      es[j].antecedent.value < es[k].antecedent.value)
  }

  /** The scan pushes the literals of unit clauses, at level 0, in index order. */
  lemma {:induction false} ScanEntries(cs: seq<Clause>, a: Values, n: nat)
    requires n <= |cs|
    ensures ScanPushed(cs, ScanUnits(cs, a, n).1, n)
  {
    if n > 0 {
      ScanEntries(cs, a, n - 1);
      var prev := ScanUnits(cs, a, n - 1);
      var es := ScanUnits(cs, a, n).1;
      if UnitFree(cs[n - 1], prev.0) {
        var e := TrailEntry(cs[n - 1][0], 0, Some(n - 1));
        assert es == prev.1 + [e];
        assert cs[n - 1] == [e.lit];
        forall k | 0 <= k < |es| ensures es[k].antecedent.Some? && es[k].antecedent.value <= n - 1 {
          if k < |prev.1| {
            assert es[k] == prev.1[k];
          }
        }
      }
    }
  }

  /** One more clause of the scan: it either binds a unit clause's variable and pushes its entry, or leaves the scan as it was. */
  lemma ScanNext(cs: seq<Clause>, a: Values, n: nat)
    requires n < |cs| && ScanClean(cs, a, n) && !UnitClash(cs[n], ScanUnits(cs, a, n).0)
    ensures ScanClean(cs, a, n + 1)
    ensures var prev := ScanUnits(cs, a, n);
      ScanUnits(cs, a, n + 1) ==
        if UnitFree(cs[n], prev.0) then (prev.0[Abs(cs[n][0]) := Some(cs[n][0] > 0)], prev.1 + [TrailEntry(cs[n][0], 0, Some(n))])
        else prev
  {
  }

  /** None of the first `n` clauses clashes when the scan reaches it. */
  ghost predicate ScanClean(cs: seq<Clause>, a: Values, n: nat)
    requires n <= |cs|
  {
    n == 0 || (ScanClean(cs, a, n - 1) && !UnitClash(cs[n - 1], ScanUnits(cs, a, n - 1).0))
  }

  /** A scan that is clean up to `n` is clean up to every `k <= n`, and clause `k < n` does not clash. */
  lemma {:induction false} ScanCleanPrefix(cs: seq<Clause>, a: Values, n: nat, k: nat)
    requires k <= n <= |cs|
    ensures ScanClean(cs, a, n) ==> ScanClean(cs, a, k)
    ensures ScanClean(cs, a, n) && k < n ==> !UnitClash(cs[k], ScanUnits(cs, a, k).0)
    decreases n - k
  {
    if k < n {
      ScanCleanPrefix(cs, a, n, k + 1);
    }
  }
}
