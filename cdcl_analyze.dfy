/**
 * Specification functions for `_analyze_conflict`: the pass over one clause,
 * the backtrack level, and the activity bumps of the learned literals.
 */
module CdclAnalyze {
  import opened Cnf
  import opened CdclDb

  /** What the analysis carries between clauses: the seen flags, the learned literals, and the count of current-level literals. */
  datatype Analysis = Analysis(seen: seq<bool>, learned: seq<int>, counter: int)

  /**
   * The pass of `_analyze_conflict` over `cl[i..]`: each literal over a
   * variable not yet seen marks it seen; a literal assigned at the current
   * level `lvl` adds one to the counter, and one assigned at a lower positive
   * level adds its negation to the learned literals.
   */
  function Collect(t: seq<TrailEntry>, lvl: nat, cl: Clause, i: nat, st: Analysis): (r: Analysis)
    requires i <= |cl| && forall l :: l in cl ==> Abs(l) < |st.seen|
    ensures |r.seen| == |st.seen|
    decreases |cl| - i
  {
    if i == |cl| then st
    else Collect(t, lvl, cl, i + 1, CollectOne(t, lvl, cl[i], st))
  }

  /** One literal of the pass: the body of the `for lit in clause` loop. */
  function CollectOne(t: seq<TrailEntry>, lvl: nat, lit: int, st: Analysis): (r: Analysis)
    requires Abs(lit) < |st.seen|
    ensures |r.seen| == |st.seen|
  {
    var v := Abs(lit);
    if !st.seen[v] && v > 0 then
      var lv := VarLevel(t, v);
      Analysis(st.seen[v := true],
               if lv != lvl && lv > 0 then st.learned + [-lit] else st.learned,
               if lv == lvl then st.counter + 1 else st.counter)
    else st
  }

  /**
   * The pass only adds: seen flags stay set and every literal's variable
   * ends up seen; the learned literals grow at the end, each the negation
   * of a clause literal whose variable sits at a positive level other than
   * the current one; the counter never drops.
   */
  lemma {:induction false} CollectSpec(t: seq<TrailEntry>, lvl: nat, cl: Clause, i: nat, st: Analysis)
    requires i <= |cl| && forall l :: l in cl ==> Abs(l) < |st.seen|
    ensures var r := Collect(t, lvl, cl, i, st);
      (forall v :: 0 <= v < |st.seen| && st.seen[v] ==> r.seen[v]) &&
      (forall k :: i <= k < |cl| && Abs(cl[k]) > 0 ==> r.seen[Abs(cl[k])]) &&
      |st.learned| <= |r.learned| && r.learned[..|st.learned|] == st.learned &&
      (forall j :: |st.learned| <= j < |r.learned| ==>
        -r.learned[j] in cl && VarLevel(t, Abs(r.learned[j])) > 0 && VarLevel(t, Abs(r.learned[j])) != lvl) &&
      r.counter >= st.counter
    decreases |cl| - i
  {
    if i < |cl| {
      var next := CollectOne(t, lvl, cl[i], st);
      CollectSpec(t, lvl, cl, i + 1, next);
      var r := Collect(t, lvl, cl, i + 1, next);
      assert r.learned[..|st.learned|] == r.learned[..|next.learned|][..|st.learned|];
    }
  }

  /** The larger of two levels. */
  function MaxOf(a: nat, b: int): nat {
    if b > a then b else a
  }

  /**
   * The backtrack level of `_analyze_conflict`: the largest `_var_level` of
   * the literals, starting from 0, so that a literal whose variable is no
   * longer on the trail (level -1) does not count.
   */
  function MaxLevel(t: seq<TrailEntry>, lits: seq<int>): nat {
    if lits == [] then 0
    else MaxOf(MaxLevel(t, lits[..|lits| - 1]), VarLevel(t, Abs(lits[|lits| - 1])))
  }

  /** The backtrack level bounds the level of every literal and is 0 or the level of one of them. */
  lemma {:induction false} MaxLevelSpec(t: seq<TrailEntry>, lits: seq<int>)
    ensures forall l :: l in lits ==> VarLevel(t, Abs(l)) <= MaxLevel(t, lits)
    ensures MaxLevel(t, lits) == 0 || exists l :: l in lits && VarLevel(t, Abs(l)) == MaxLevel(t, lits)
  {
    if lits != [] {
      var init := lits[..|lits| - 1];
      MaxLevelSpec(t, init);
      assert forall l :: l in lits ==> l in init || l == lits[|lits| - 1];
      assert forall l :: l in init ==> l in lits;
    }
  }

  /** How many of the literals are over `v`. */
  function VarCount(lits: seq<int>, v: nat): nat {
    if lits == [] then 0
    else VarCount(lits[..|lits| - 1], v) + (if Abs(lits[|lits| - 1]) == v then 1 else 0)
  }

  /** The activities after `_bump_activity` for each literal over a nonzero variable, in order. */
  function Bumped(act: seq<real>, lits: seq<int>, inc: real): (r: seq<real>)
    requires forall l :: l in lits ==> Abs(l) < |act|
    ensures |r| == |act|
  {
    if lits == [] then act
    else
      var b := Bumped(act, lits[..|lits| - 1], inc);
      var v := Abs(lits[|lits| - 1]);
      if v > 0 then b[v := b[v] + inc] else b
  }

  /** Bumping never touches slot 0, the unused variable 0. */
  lemma {:induction false} BumpedZero(act: seq<real>, lits: seq<int>, inc: real)
    requires forall l :: l in lits ==> Abs(l) < |act|
    requires |act| > 0
    ensures Bumped(act, lits, inc)[0] == act[0]
  {
    if lits != [] {
      var init := lits[..|lits| - 1];
      assert forall l :: l in init ==> l in lits;
      BumpedZero(act, init, inc);
    }
  }

  /** Bumping adds the increment to a variable's activity once per occurrence of the variable. */
  lemma {:induction false} BumpedAt(act: seq<real>, lits: seq<int>, inc: real, v: nat)
    requires forall l :: l in lits ==> Abs(l) < |act|
    requires 0 < v < |act|
    ensures Bumped(act, lits, inc)[v] == act[v] + (VarCount(lits, v) as real) * inc
  {
    if lits != [] {
      var init := lits[..|lits| - 1];
      assert forall l :: l in init ==> l in lits;
      BumpedAt(act, init, inc, v);
      var b := Bumped(act, init, inc);
      var u := Abs(lits[|lits| - 1]);
      var c := VarCount(init, v);
      assert Bumped(act, lits, inc) == if u > 0 then b[u := b[u] + inc] else b;
      if u == v {
        assert VarCount(lits, v) == c + 1;
        Distrib(c, inc);
        assert Bumped(act, lits, inc)[v] == b[v] + inc;
      } else {
        assert VarCount(lits, v) == c;
        assert Bumped(act, lits, inc)[v] == b[v];
      }
    }
  }

  lemma Distrib(c: nat, x: real)
    ensures ((c + 1) as real) * x == (c as real) * x + x
  {
  }
}
