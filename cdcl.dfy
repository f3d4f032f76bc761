/**
 * The conflict-driven clause-learning solver: one object whose fields (the
 * clause database, watch lists, trail, values, activity heap and counters)
 * its methods update in place.
 */
module Cdcl {
  import opened Wrappers
  import opened Cnf
  import opened CdclHeap
  import opened CdclDb
  import opened CdclAnalyze
  import opened CdclReduce

  /** The counters `_get_stats` reports (the elapsed time is not modelled). */
  datatype Stats = Stats(decisions: nat, propagations: nat, conflicts: nat, learned: nat, restarts: nat)

  /**
   * Dropping empty clauses changes the answer: the formula holding only the
   * empty clause has no model, but what is left after the drop is the empty
   * formula, which every assignment satisfies.
   */
  lemma EmptyClauseDropped(f: seq<Clause>)
    requires f == [[]]
    ensures NonEmpty(f) == []
    ensures forall a: Assignment :: Sat(a, NonEmpty(f)) && !Sat(a, f)
  {
    assert NonEmpty(f) == [] + NonEmpty(f[1..]);
    forall a: Assignment ensures !Sat(a, f) {
      assert f[0] in f && !ClauseSat(a, f[0]);
    }
  }

  class CdclSolver {
    const numVars: nat
    const originalClauses: seq<Clause>
    /** The learned-clause count above which the database is reduced. */
    const maxLearnedClauses: nat := 1000
    const activityDecay: real := 0.95

    var clauses: seq<Clause>
    var learnedClauses: seq<nat>
    var clauseActivity: seq<real>
    var watchList: map<int, seq<nat>>
    var trail: seq<TrailEntry>
    var trailLim: seq<nat>
    var assignment: Values
    var decisionLevel: nat
    var activity: seq<real>
    var activityInc: real
    var varOrder: seq<nat>
    var varPos: map<nat, nat>
    var propagateHead: nat
    var numDecisions: nat
    var numPropagations: nat
    var numConflicts: nat
    var numLearned: nat
    var numRestarts: nat

    /**
     * `CDCLSolver(num_vars, clauses)`: the clauses are copied without the
     * empty ones, so the empty-clause test of `solve` never fires on a solver
     * built this way.
     */
    constructor (numVars: nat, input: seq<Clause>)
      ensures this.numVars == numVars && originalClauses == NonEmpty(input) && [] !in originalClauses
      ensures clauses == [] && learnedClauses == [] && clauseActivity == [] && watchList == map[]
      ensures trail == [] && trailLim == [] && decisionLevel == 0 && propagateHead == 0
      ensures assignment == seq(numVars + 1, _ => None) && activity == seq(numVars + 1, _ => 0.0)
      ensures activityInc == 1.0 && varOrder == [] && varPos == map[]
      ensures numDecisions == 0 && numPropagations == 0 && numConflicts == 0 && numLearned == 0 && numRestarts == 0
    {
      this.numVars := numVars;
      originalClauses := NonEmpty(input);
      clauses := [];
      learnedClauses := [];
      clauseActivity := [];
      watchList := map[];
      trail := [];
      trailLim := [];
      assignment := seq(numVars + 1, _ => None);
      decisionLevel := 0;
      activity := seq(numVars + 1, _ => 0.0);
      activityInc := 1.0;
      varOrder := [];
      varPos := map[];
      propagateHead := 0;
      numDecisions := 0;
      numPropagations := 0;
      numConflicts := 0;
      numLearned := 0;
      numRestarts := 0;
    }

    /**
     * The corrected construction: every input clause is kept, empty ones
     * included, so that `solve` reports an empty clause as unsatisfiable.
     */
    constructor Unfiltered(numVars: nat, input: seq<Clause>)
      ensures this.numVars == numVars && originalClauses == input
      ensures clauses == [] && learnedClauses == [] && clauseActivity == [] && watchList == map[]
      ensures trail == [] && trailLim == [] && decisionLevel == 0 && propagateHead == 0
      ensures assignment == seq(numVars + 1, _ => None) && activity == seq(numVars + 1, _ => 0.0)
      ensures activityInc == 1.0 && varOrder == [] && varPos == map[]
      ensures numDecisions == 0 && numPropagations == 0 && numConflicts == 0 && numLearned == 0 && numRestarts == 0
    {
      this.numVars := numVars;
      originalClauses := input;
      clauses := [];
      learnedClauses := [];
      clauseActivity := [];
      watchList := map[];
      trail := [];
      trailLim := [];
      assignment := seq(numVars + 1, _ => None);
      decisionLevel := 0;
      activity := seq(numVars + 1, _ => 0.0);
      activityInc := 1.0;
      varOrder := [];
      varPos := map[];
      propagateHead := 0;
      numDecisions := 0;
      numPropagations := 0;
      numConflicts := 0;
      numLearned := 0;
      numRestarts := 0;
    }

    /** The value and activity lists are 1-indexed over the variables, and one level boundary is recorded per decision level. */
    predicate Sized()
      reads this`assignment, this`activity, this`activityInc, this`trailLim, this`decisionLevel
    {
      |assignment| == numVars + 1 && |activity| == numVars + 1 && activityInc > 0.0 && |trailLim| == decisionLevel
    }

    /** Every literal names a variable, and the watch lists are exact. */
    ghost predicate DbOk()
      reads this`clauses, this`watchList
    {
      Bounded(clauses, numVars) && WatchesExact(clauses, watchList)
    }

    /** Every trail literal is true, no variable is on the trail twice, and every antecedent is a clause. */
    predicate TrailValid()
      reads this`trail, this`assignment, this`clauses
    {
      TrailOk(trail, assignment) && ReasonsInRange(trail, clauses)
    }

    /** `var_order`/`var_pos` is an indexed max-heap on activity over variables in `1..numVars`. */
    predicate HeapOk()
      reads this`varOrder, this`varPos, this`activity
    {
      Indexed(varOrder, varPos) && Ordered(varOrder, activity) && InRange(varOrder, numVars) &&
      |activity| == numVars + 1
    }

    /** Every unassigned variable is in the heap, so the heap can always offer it. */
    predicate Covered()
      reads this`assignment, this`varPos
    {
      |assignment| == numVars + 1 &&
      forall v: nat :: 1 <= v <= numVars && assignment[v].None? ==> v in varPos
    }

    ghost predicate Valid()
      reads this`assignment, this`activity, this`activityInc, this`trailLim, this`decisionLevel
      reads this`clauses, this`watchList, this`trail, this`varOrder, this`varPos
    {
      Sized() && DbOk() && TrailValid() && HeapOk() && Covered()
    }

    /** `_heap_decrease`: sift the variable up until its parent's activity is at least its own. */
    method HeapDecrease(v: nat)
      requires Indexed(varOrder, varPos) && InRange(varOrder, numVars) && |activity| == numVars + 1
      requires if v in varPos then OrderedExceptUp(varOrder, activity, varPos[v]) else Ordered(varOrder, activity)
      modifies this`varOrder, this`varPos
      ensures HeapOk()
      ensures multiset(varOrder) == old(multiset(varOrder)) && varPos.Keys == old(varPos.Keys)
      ensures v !in old(varPos) ==> varOrder == old(varOrder) && varPos == old(varPos)
    {
      if v !in varPos {
        return;
      }
      var pos: nat := varPos[v];
      ghost var elems := multiset(varOrder);
      ghost var keys := varPos.Keys;
      while pos > 0
        invariant Indexed(varOrder, varPos) && InRange(varOrder, numVars)
        invariant pos < |varOrder| && varOrder[pos] == v
        invariant OrderedExceptUp(varOrder, activity, pos)
        invariant multiset(varOrder) == elems && varPos.Keys == keys
        decreases pos
      {
        var parent: nat := (pos - 1) / 2;
        if activity[varOrder[parent]] >= activity[v] {
          StopUp(varOrder, activity, pos);
          return;
        }
        SiftUpStep(varOrder, varPos, activity, numVars, pos);
        varOrder := Swap(varOrder, pos, parent);
        varPos := Reposition(varPos, varOrder, pos, parent);
        pos := parent;
      }
      StopUp(varOrder, activity, 0);
    }

    /** `_heap_percolate_down`: swap the slot with its larger child until neither child is larger. */
    method HeapPercolateDown(pos: nat)
      requires Indexed(varOrder, varPos) && InRange(varOrder, numVars) && |activity| == numVars + 1
      requires pos < |varOrder| && OrderedExceptDown(varOrder, activity, pos)
      modifies this`varOrder, this`varPos
      ensures HeapOk()
      ensures multiset(varOrder) == old(multiset(varOrder)) && varPos.Keys == old(varPos.Keys)
    {
      var size := |varOrder|;
      var k: nat := pos;
      ghost var elems := multiset(varOrder);
      ghost var keys := varPos.Keys;
      while true
        invariant Indexed(varOrder, varPos) && InRange(varOrder, numVars) && |varOrder| == size
        invariant k < size && OrderedExceptDown(varOrder, activity, k)
        invariant multiset(varOrder) == elems && varPos.Keys == keys
        decreases size - k
      {
        var largest := LargestOf(k);
        if largest == k {
          StopDown(varOrder, activity, k);
          return;
        }
        SwapDownAt(k, largest);
        k := largest;
      }
    }

    /** The exchange of `_heap_percolate_down`: swap slot `k` with its larger child `c` and update both positions. */
    method SwapDownAt(k: nat, c: nat)
      requires Indexed(varOrder, varPos) && InRange(varOrder, numVars) && OrderedExceptDown(varOrder, activity, k)
      requires (c == 2 * k + 1 || c == 2 * k + 2) && c < |varOrder|
      requires Key(activity, varOrder[c]) > Key(activity, varOrder[k])
      requires Dominates(varOrder, activity, c, 2 * k + 1) && Dominates(varOrder, activity, c, 2 * k + 2)
      modifies this`varOrder, this`varPos
      ensures varOrder == Swap(old(varOrder), k, c) && varPos == Reposition(old(varPos), varOrder, k, c)
      ensures Indexed(varOrder, varPos) && InRange(varOrder, numVars) && OrderedExceptDown(varOrder, activity, c)
      ensures multiset(varOrder) == old(multiset(varOrder)) && varPos.Keys == old(varPos.Keys)
    {
      SiftDownStep(varOrder, varPos, activity, numVars, k, c);
      varOrder := Swap(varOrder, k, c);
      varPos := Reposition(varPos, varOrder, k, c);
    }

    /** The child comparison of `_heap_percolate_down`: slot `k` or the child slot with the largest activity, preferring `k`, then the left child. */
    method LargestOf(k: nat) returns (largest: nat)
      requires k < |varOrder| && InRange(varOrder, numVars) && |activity| == numVars + 1
      ensures largest == k || ((largest == 2 * k + 1 || largest == 2 * k + 2) && largest < |varOrder| &&
        Key(activity, varOrder[largest]) > Key(activity, varOrder[k]))
      ensures Dominates(varOrder, activity, largest, k)
      ensures Dominates(varOrder, activity, largest, 2 * k + 1) && Dominates(varOrder, activity, largest, 2 * k + 2)
    {
      var size := |varOrder|;
      var left: nat := 2 * k + 1;
      var right: nat := 2 * k + 2;
      largest := k;
      if left < size && activity[varOrder[left]] > activity[varOrder[largest]] {
        largest := left;
      }
      if right < size && activity[varOrder[right]] > activity[varOrder[largest]] {
        largest := right;
      }
    }

    /** `_heap_insert`: a no-op for a variable already in the heap; otherwise append it and sift it up. */
    method HeapInsert(v: nat)
      requires 1 <= v <= numVars && HeapOk()
      modifies this`varOrder, this`varPos
      ensures HeapOk()
      ensures varPos.Keys == old(varPos.Keys) + {v}
      ensures v in old(varPos) ==> varOrder == old(varOrder) && varPos == old(varPos)
      ensures v !in old(varPos) ==> multiset(varOrder) == old(multiset(varOrder)) + multiset{v}
    {
      if v in varPos {
        return;
      }
      AppendIndexed(varOrder, varPos, v);
      AppendKey(varOrder, activity, v);
      varPos := varPos[v := |varOrder|];
      varOrder := varOrder + [v];
      HeapDecrease(v);
    }

    /** `_heap_pop`: remove and return the root, which has the largest activity in the heap. */
    method HeapPop() returns (r: Option<nat>)
      requires HeapOk()
      modifies this`varOrder, this`varPos
      ensures HeapOk()
      ensures r.None? <==> old(varOrder) == []
      ensures r.None? ==> varOrder == old(varOrder) && varPos == old(varPos)
      ensures r.Some? ==> r.value == old(varOrder)[0] && varPos.Keys == old(varPos.Keys) - {r.value}
      ensures r.Some? ==> multiset(varOrder) == old(multiset(varOrder)) - multiset{r.value}
      ensures r.Some? ==> forall u :: u in old(varPos) ==> Key(activity, u) <= Key(activity, r.value)
    {
      if varOrder == [] {
        return None;
      }
      var v := varOrder[0];
      RootDominates(varOrder, varPos, activity);
      var last := varOrder[|varOrder| - 1];
      if |varOrder| == 1 {
        PopLast(varOrder, varPos);
        varOrder := varOrder[..|varOrder| - 1];
        varPos := varPos - {v};
      } else {
        PopStep(varOrder, varPos, activity, numVars);
        varOrder := varOrder[..|varOrder| - 1];
        varPos := varPos - {v};
        varOrder := varOrder[0 := last];
        varPos := varPos[last := 0];
        HeapPercolateDown(0);
      }
      return Some(v);
    }

    /** `_bump_activity`: add the increment to the variable's activity and restore the heap order. */
    method BumpActivity(v: nat)
      requires 1 <= v <= numVars && HeapOk() && activityInc > 0.0
      modifies this`activity, this`varOrder, this`varPos
      ensures activity == old(activity)[v := old(activity)[v] + activityInc]
      ensures HeapOk() && varPos.Keys == old(varPos.Keys) && multiset(varOrder) == old(multiset(varOrder))
    {
      if v in varPos {
        RaiseKey(varOrder, activity, varPos[v], v, activityInc);
      } else {
        KeyOutside(varOrder, activity, v, activity[v] + activityInc);
      }
      activity := activity[v := activity[v] + activityInc];
      if v in varPos {
        HeapDecrease(v);
      }
    }

    /** `_decay_activities`: divide the increment by the decay factor, so later bumps weigh more. */
    method DecayActivities()
      requires activityInc > 0.0
      modifies this`activityInc
      ensures activityInc == old(activityInc) / activityDecay && activityInc > old(activityInc)
    {
      activityInc := activityInc / activityDecay;
    }

    /** `_choose_variable`: pop the heap until an unassigned variable comes out. */
    method ChooseVariable() returns (r: Option<nat>)
      requires HeapOk() && Covered()
      modifies this`varOrder, this`varPos
      ensures HeapOk()
      ensures r.Some? ==> 1 <= r.value <= numVars && assignment[r.value].None? && r.value !in varPos
      ensures r.Some? ==> forall u :: 1 <= u <= numVars && assignment[u].None? ==> activity[u] <= activity[r.value]
      ensures r.None? ==> forall u :: 1 <= u <= numVars ==> assignment[u].Some?
      ensures forall u: nat :: 1 <= u <= numVars && assignment[u].None? && r != Some(u) ==> u in varPos
    {
      while varOrder != []
        invariant HeapOk() && Covered()
        decreases |varOrder|
      {
        ghost var order0 := varOrder;
        ghost var pos0 := varPos;
        var x := HeapPop();
        var v := x.value;
        assert v == order0[0] && v in pos0;
        assert |varOrder| == |multiset(varOrder)| == |order0| - 1;
        if assignment[v].None? {
          forall u | 1 <= u <= numVars && assignment[u].None? ensures activity[u] <= activity[v] {
            assert u in pos0;
          }
          return Some(v);
        }
      }
      return None;
    }
    /** `_make_decision`: open a new decision level and assign the most active unassigned variable True. */
    method MakeDecision() returns (decided: Option<nat>)
      requires Valid()
      modifies this`varOrder, this`varPos, this`decisionLevel, this`trailLim, this`assignment, this`trail, this`numDecisions
      ensures Valid()
      ensures decided.None? ==> forall u :: 1 <= u <= numVars ==> assignment[u].Some?
      ensures decided.None? ==> (assignment == old(assignment) && trail == old(trail) && trailLim == old(trailLim) &&
        decisionLevel == old(decisionLevel) && numDecisions == old(numDecisions))
      ensures decided.Some? ==> 1 <= decided.value <= numVars && old(assignment)[decided.value].None?
      ensures decided.Some? ==> forall u :: 1 <= u <= numVars && old(assignment)[u].None? ==> activity[u] <= activity[decided.value]
      ensures decided.Some? ==> (
        decisionLevel == old(decisionLevel) + 1 && trailLim == old(trailLim) + [|old(trail)|] &&
        assignment == old(assignment)[decided.value := Some(true)] &&
        trail == old(trail) + [TrailEntry(decided.value, decisionLevel, None)] &&
        numDecisions == old(numDecisions) + 1)
    {
      var r := ChooseVariable();
      if r.None? {
        return None;
      }
      Decide(r.value);
      return r;
    }

    /** The assignment half of `_make_decision`: open a level at the end of the trail and push `v` as a decision, valued True. */
    method Decide(v: nat)
      requires Sized() && DbOk() && TrailValid() && HeapOk() && 1 <= v <= numVars && assignment[v].None?
      requires forall u: nat :: 1 <= u <= numVars && assignment[u].None? && u != v ==> u in varPos
      modifies this`decisionLevel, this`trailLim, this`assignment, this`trail, this`numDecisions
      ensures Valid()
      ensures decisionLevel == old(decisionLevel) + 1 && trailLim == old(trailLim) + [|old(trail)|]
      ensures assignment == old(assignment)[v := Some(true)]
      ensures trail == old(trail) + [TrailEntry(v, decisionLevel, None)] && numDecisions == old(numDecisions) + 1
    {
      var value := true;
      var lit: int := if value then v else -(v as int);
      decisionLevel := decisionLevel + 1;
      trailLim := trailLim + [|trail|];
      var e := TrailEntry(lit, decisionLevel, None);
      TrailPush(trail, assignment, e);
      assignment := assignment[v := Some(value)];
      trail := trail + [e];
      numDecisions := numDecisions + 1;
    }

    /**
     * The undo loop of `_backtrack`: from the end of the trail down to
     * position `cut`, unassign each entry's variable and give it back to the heap.
     */
    method UnassignFrom(cut: nat)
      requires HeapOk() && Covered() && TrailOk(trail, assignment) && cut <= |trail|
      modifies this`assignment, this`varOrder, this`varPos
      ensures HeapOk() && Covered() && UnassignedExactly(assignment, old(assignment), VarsOf(trail[cut..]))
      ensures varPos.Keys == old(varPos.Keys) + VarsOf(trail[cut..])
    {
      var i := |trail|;
      ghost var gone: set<nat> := {};
      ghost var keys0 := varPos.Keys;
      ghost var a0 := assignment;
      assert forall j :: 0 <= j < |trail| ==> 1 <= Abs(trail[j].lit) <= numVars;
      while i > cut
        invariant cut <= i <= |trail| && gone == VarsOf(trail[i..])
        invariant UnassignedExactly(assignment, a0, gone)
        invariant HeapOk() && varPos.Keys == keys0 + gone
        decreases i
      {
        i := i - 1;
        var lit := trail[i].lit;
        var v := Abs(lit);
        VarsOfSplit(trail, i);
        Unassign(v, a0, gone);
        gone := gone + {v};
      }
      forall v: nat | 1 <= v <= numVars && assignment[v].None? ensures v in varPos {
        if v !in gone {
          assert a0[v].None?;
        }
      }
    }

    /** One pass of the undo loop: unassign `v` and give it back to the heap. */
    method Unassign(v: nat, ghost a0: Values, ghost gone: set<nat>)
      requires HeapOk() && 1 <= v <= numVars && |a0| == numVars + 1 && UnassignedExactly(assignment, a0, gone)
      modifies this`assignment, this`varOrder, this`varPos
      ensures HeapOk() && UnassignedExactly(assignment, a0, gone + {v})
      ensures varPos.Keys == old(varPos.Keys) + {v}
    {
      UnassignStep(assignment, a0, gone, v);
      assignment := assignment[v := None];
      HeapInsert(v);
    }

    /**
     * `_backtrack`: for a level below the current one, cut the trail at the
     * level's boundary (clamped to the trail's length, as slicing does),
     * unassign exactly the removed variables, give them back to the heap, and
     * restart propagation at the new end of the trail.
     */
    method Backtrack(level: nat)
      requires Valid()
      modifies this`assignment, this`varOrder, this`varPos, this`trail, this`trailLim, this`decisionLevel, this`propagateHead
      ensures Valid()
      ensures level >= old(decisionLevel) ==> (
        assignment == old(assignment) && trail == old(trail) && trailLim == old(trailLim) &&
        decisionLevel == old(decisionLevel) && propagateHead == old(propagateHead) &&
        varOrder == old(varOrder) && varPos == old(varPos))
      ensures level < old(decisionLevel) ==>
        var cut := if old(trailLim)[level] <= |old(trail)| then old(trailLim)[level] else |old(trail)|;
        trail == old(trail)[..cut] && trailLim == old(trailLim)[..level] && decisionLevel == level &&
        propagateHead == |trail| && UnassignedExactly(assignment, old(assignment), VarsOf(old(trail)[cut..])) &&
        varPos.Keys == old(varPos.Keys) + VarsOf(old(trail)[cut..])
    {
      if level >= decisionLevel {
        return;
      }
      var target := trailLim[level];
      var cut := if target <= |trail| then target else |trail|;
      ghost var a0 := assignment;
      UnassignFrom(cut);
      TrailCut(trail, a0, assignment, cut);
      ReasonsPrefix(trail, clauses, cut);
      trail := trail[..cut];
      trailLim := trailLim[..level];
      decisionLevel := level;
      propagateHead := |trail|;
    }

    /** `_restart`: backtrack to level 0, keeping the learned clauses, and count the restart. */
    method Restart()
      requires Valid()
      modifies this`assignment, this`varOrder, this`varPos, this`trail, this`trailLim, this`decisionLevel, this`propagateHead, this`numRestarts
      ensures Valid() && numRestarts == old(numRestarts) + 1
      ensures old(decisionLevel) == 0 ==> (
        assignment == old(assignment) && trail == old(trail) && trailLim == old(trailLim) &&
        decisionLevel == 0 && propagateHead == old(propagateHead) && varOrder == old(varOrder) && varPos == old(varPos))
      ensures old(decisionLevel) > 0 ==>
        var cut := if old(trailLim)[0] <= |old(trail)| then old(trailLim)[0] else |old(trail)|;
        trail == old(trail)[..cut] && trailLim == [] && decisionLevel == 0 && propagateHead == |trail| &&
        UnassignedExactly(assignment, old(assignment), VarsOf(old(trail)[cut..])) &&
        varPos.Keys == old(varPos.Keys) + VarsOf(old(trail)[cut..])
    {
      Backtrack(0);
      numRestarts := numRestarts + 1;
    }

    /**
     * What propagation keeps relative to the state `(t0, a0, cs0, p0)` it
     * started from: the old trail is a prefix, every entry after it was
     * implied at the current level by a clause that forces it, one
     * propagation is counted per entry, values are only added, and each
     * clause is only permuted.
     */
    ghost predicate Propagated(t0: seq<TrailEntry>, a0: Values, cs0: seq<Clause>, p0: nat)
      reads this`trail, this`assignment, this`clauses, this`numPropagations, this`decisionLevel
    {
      Progress(t0, a0, cs0, p0, trail, assignment, clauses, numPropagations, decisionLevel)
    }

    /** The solver invariants that propagation relies on, together with what it keeps relative to its starting state. */
    ghost predicate Live(t0: seq<TrailEntry>, a0: Values, cs0: seq<Clause>, p0: nat)
      reads this`trail, this`assignment, this`clauses, this`numPropagations, this`decisionLevel, this`watchList
      reads this`activity, this`activityInc, this`trailLim, this`varPos
    {
      Sized() && DbOk() && TrailValid() && Covered() && Propagated(t0, a0, cs0, p0)
    }

    /** One pass of `_propagate`'s inner loop: clause `c` is on the watch list of the false literal `negLit`. */
    method Visit(c: nat, negLit: int, ghost t0: seq<TrailEntry>, ghost a0: Values, ghost cs0: seq<Clause>, ghost p0: nat)
      returns (conflict: bool, ghost act: WatchAction)
      requires Live(t0, a0, cs0, p0)
      requires WatchSafe(clauses, c, negLit) && c in Watches(watchList, negLit)
      requires forall l :: l in clauses[c] ==> Abs(l) < |assignment|
      requires Abs(negLit) < |assignment| && LitValue(assignment, negLit) == Some(false)
      modifies this`clauses, this`watchList, this`assignment, this`trail, this`numPropagations
      ensures Live(t0, a0, cs0, p0)
      ensures act == WatchStep(old(clauses)[c], old(assignment), negLit)
      ensures conflict <==> act.Conflict?
      ensures conflict ==> c < |clauses| && |clauses[c]| >= 2 && Falsified(clauses[c], assignment)
      ensures act.Moved? ==> clauses == old(clauses)[c := Swap(old(clauses)[c], act.w, act.ni)]
      ensures act.Moved? ==> watchList == MoveWatch(old(watchList), c, negLit, old(clauses)[c][act.ni])
      ensures !act.Moved? ==> clauses == old(clauses) && watchList == old(watchList)
      ensures act.Implied? ==> assignment == old(assignment)[Abs(act.lit) := Some(act.lit > 0)]
      ensures act.Implied? ==> trail == old(trail) + [TrailEntry(act.lit, decisionLevel, Some(c))]
      ensures act.Implied? ==> numPropagations == old(numPropagations) + 1
      ensures !act.Implied? ==> assignment == old(assignment) && trail == old(trail)
      ensures !act.Implied? ==> numPropagations == old(numPropagations)
    {
      var clause := clauses[c];
      var a := Classify(clause, negLit);
      act := a;
      match a {
        case Moved(w, ni) =>
          MoveWatchTo(c, w, ni, t0, a0, cs0, p0);
        case Conflict =>
          WatchConflict(clause, assignment, negLit);
        case Implied(other) =>
          WatchImplied(clause, assignment, negLit, other);
          Imply(c, other, t0, a0, cs0, p0);
        case _ =>
      }
      conflict := a.Conflict?;
    }

    /** The watch of clause `c` at position `w` moves to position `ni`: the two literals are exchanged and the watch lists follow. */
    method MoveWatchTo(c: nat, w: nat, ni: nat, ghost t0: seq<TrailEntry>, ghost a0: Values, ghost cs0: seq<Clause>, ghost p0: nat)
      requires Live(t0, a0, cs0, p0)
      requires c < |clauses| && w < 2 && 2 <= ni < |clauses[c]|
      modifies this`clauses, this`watchList
      ensures Live(t0, a0, cs0, p0)
      ensures c in Watches(old(watchList), old(clauses)[c][w])
      ensures clauses == old(clauses)[c := Swap(old(clauses)[c], w, ni)]
      ensures watchList == MoveWatch(old(watchList), c, old(clauses)[c][w], old(clauses)[c][ni])
    {
      var clause := clauses[c];
      WatchMove(clauses, watchList, c, w, ni);
      BoundedSwap(clauses, numVars, c, w, ni);
      PermutedSwap(clauses, c, w, ni);
      PermutedTrans(clauses[c := Swap(clause, w, ni)], clauses, cs0);
      NewReasonsKept(trail, |t0|, clauses, clauses[c := Swap(clause, w, ni)], assignment, assignment, decisionLevel);
      var negLit := clause[w];
      clause := Swap(clause, w, ni);
      clauses := clauses[c := clause];
      watchList := watchList[negLit := RemoveFirst(Watches(watchList, negLit), c)];
      watchList := watchList[clause[w] := Watches(watchList, clause[w]) + [c]];
    }

    /** Clause `c` forces the unassigned literal `lit`: assign it and push it on the trail with `c` as its antecedent. */
    method Imply(c: nat, lit: int, ghost t0: seq<TrailEntry>, ghost a0: Values, ghost cs0: seq<Clause>, ghost p0: nat)
      requires Live(t0, a0, cs0, p0)
      requires c < |clauses| && lit != 0 && Abs(lit) < |assignment| && assignment[Abs(lit)].None?
      requires ReasonFor(clauses[c], lit, assignment)
      modifies this`assignment, this`trail, this`numPropagations
      ensures Live(t0, a0, cs0, p0)
      ensures assignment == old(assignment)[Abs(lit) := Some(lit > 0)]
      ensures trail == old(trail) + [TrailEntry(lit, decisionLevel, Some(c))]
      ensures numPropagations == old(numPropagations) + 1
    {
      var e := TrailEntry(lit, decisionLevel, Some(c));
      TrailPush(trail, assignment, e);
      NewReasonsPush(trail, |t0|, clauses, assignment, decisionLevel, e);
      assignment := assignment[Abs(lit) := Some(lit > 0)];
      trail := trail + [e];
      numPropagations := numPropagations + 1;
    }

    /**
     * The tests `_propagate` makes on one watching clause, in its order:
     * which position watches `negLit`, whether the other watched literal is
     * true, the search from position 2 for a literal that is not false, and
     * whether the other watched literal is false or unassigned.
     */
    method Classify(clause: Clause, negLit: int) returns (act: WatchAction)
      requires |clause| >= 1 && (|clause| == 1 ==> clause[0] == negLit)
      requires forall l :: l in clause ==> Abs(l) < |assignment|
      ensures act == WatchStep(clause, assignment, negLit)
    {
      var watchedIdx: nat;
      var otherIdx: nat;
      if clause[0] == negLit {
        watchedIdx, otherIdx := 0, 1;
      } else if clause[1] == negLit {
        watchedIdx, otherIdx := 1, 0;
      } else {
        return NotWatching;
      }
      var other := if otherIdx < |clause| then clause[otherIdx] else 0;
      if other != 0 && LitValue(assignment, other) == Some(true) {
        return OtherTrue;
      }
      var newWatch: Option<nat> := None;
      var i := 2;
      while i < |clause|
        invariant 2 <= i && FirstNonFalse(assignment, clause, 2) == FirstNonFalse(assignment, clause, i)
        decreases |clause| - i
      {
        if LitValue(assignment, clause[i]) != Some(false) {
          newWatch := Some(i);
          break;
        }
        i := i + 1;
      }
      if newWatch.Some? {
        return Moved(watchedIdx, newWatch.value);
      }
      if other != 0 && LitValue(assignment, other) == Some(false) {
        return Conflict;
      } else if other != 0 {
        return Implied(other);
      }
      return FallThrough;
    }

    /** The loop over a snapshot of the watch list of `negLit`, stopping at the first falsified clause. */
    method VisitWatchers(negLit: int, ghost t0: seq<TrailEntry>, ghost a0: Values, ghost cs0: seq<Clause>, ghost p0: nat)
      returns (conflict: Option<nat>)
      requires Live(t0, a0, cs0, p0)
      requires Abs(negLit) < |assignment| && LitValue(assignment, negLit) == Some(false)
      modifies this`clauses, this`watchList, this`assignment, this`trail, this`numPropagations
      ensures Live(t0, a0, cs0, p0)
      ensures |trail| >= old(|trail|)
      ensures conflict.Some? ==> conflict.value < |clauses| && |clauses[conflict.value]| >= 2
      ensures conflict.Some? ==> Falsified(clauses[conflict.value], assignment)
    {
      var ws := Watches(watchList, negLit);
      var j := 0;
      while j < |ws|
        invariant j <= |ws| && Covers(ws[j..], watchList, negLit)
        invariant Live(t0, a0, cs0, p0)
        invariant LitValue(assignment, negLit) == Some(false) && |trail| >= old(|trail|)
      {
        var hit := VisitAt(ws, j, negLit, t0, a0, cs0, p0);
        if hit {
          return Some(ws[j]);
        }
        j := j + 1;
      }
      return None;
    }

    /** Visit the `j`-th clause of the snapshot `ws`; the rest of the snapshot stays covered when it is not falsified. */
    method VisitAt(ws: seq<nat>, j: nat, negLit: int, ghost t0: seq<TrailEntry>, ghost a0: Values, ghost cs0: seq<Clause>, ghost p0: nat)
      returns (conflict: bool)
      requires Live(t0, a0, cs0, p0) && j < |ws| && Covers(ws[j..], watchList, negLit)
      requires Abs(negLit) < |assignment| && LitValue(assignment, negLit) == Some(false)
      modifies this`clauses, this`watchList, this`assignment, this`trail, this`numPropagations
      ensures Live(t0, a0, cs0, p0)
      ensures LitValue(assignment, negLit) == Some(false) && |trail| >= old(|trail|)
      ensures conflict ==> ws[j] < |clauses| && |clauses[ws[j]]| >= 2 && Falsified(clauses[ws[j]], assignment)
      ensures !conflict ==> Covers(ws[j + 1..], watchList, negLit)
    {
      var c := ws[j];
      CoversHead(ws[j..], watchList, negLit);
      WatchedSafe(clauses, watchList, negLit, c);
      BoundedAt(clauses, numVars, c);
      ghost var wl, cl := watchList, clauses[c];
      ghost var act;
      conflict, act := Visit(c, negLit, t0, a0, cs0, p0);
      if !conflict {
        if act.Moved? {
          CoversMove(ws[j..], wl, negLit, cl[act.ni]);
        }
        assert ws[j..][1..] == ws[j + 1..];
      }
    }

    /**
     * `_propagate`: process the trail from `propagateHead`, visiting every
     * clause that watches the negation of each entry, until the trail is
     * exhausted or a clause is falsified.
     */
    method Propagate() returns (conflict: Option<nat>)
      requires Sized() && DbOk() && TrailValid() && Covered()
      modifies this`clauses, this`watchList, this`assignment, this`trail, this`numPropagations, this`propagateHead
      ensures Sized() && DbOk() && TrailValid() && Covered()
      ensures Propagated(old(trail), old(assignment), old(clauses), old(numPropagations))
      ensures conflict.Some? ==> conflict.value < |clauses| && |clauses[conflict.value]| >= 2
      ensures conflict.Some? ==> Falsified(clauses[conflict.value], assignment)
      ensures propagateHead >= old(propagateHead)
      ensures conflict.None? ==> propagateHead == if old(propagateHead) < old(|trail|) then |trail| else old(propagateHead)
      ensures conflict.None? ==> propagateHead >= |trail|
    {
      ghost var t0, a0, cs0, p0 := trail, assignment, clauses, numPropagations;
      assert trail[..|t0|] == t0;
      while propagateHead < |trail|
        invariant Live(t0, a0, cs0, p0)
        invariant propagateHead >= old(propagateHead)
        invariant old(propagateHead) < |t0| ==> propagateHead <= |trail|
        invariant old(propagateHead) >= |t0| ==> propagateHead == old(propagateHead) && trail == t0
        decreases numVars + 1 - propagateHead
      {
        TrailLength(trail, assignment);
        var lit := trail[propagateHead].lit;
        propagateHead := propagateHead + 1;
        var negLit := -lit;
        assert LitValue(assignment, negLit) == Some(false);
        conflict := VisitWatchers(negLit, t0, a0, cs0, p0);
        if conflict.Some? {
          return;
        }
      }
      return None;
    }

    /**
     * The scan of `_initial_propagate` over the unit clauses, at level 0: it
     * stops at the first clause that clashes, and until then the values, the
     * trail and the propagation count follow `ScanUnits`.
     */
    method AssignUnits(ghost t0: seq<TrailEntry>, ghost a0: Values, ghost cs0: seq<Clause>, ghost p0: nat)
      returns (conflict: Option<nat>)
      requires Live(t0, a0, cs0, p0) && decisionLevel == 0 && NoZero(clauses)
      modifies this`assignment, this`trail, this`numPropagations
      ensures Live(t0, a0, cs0, p0)
      ensures conflict.Some? ==> conflict.value < |clauses| && Falsified(clauses[conflict.value], assignment)
      ensures conflict.None? ==> UnitsTrue(clauses, assignment, |clauses|)
      ensures conflict.Some? ==> UnitClash(clauses[conflict.value], assignment)
      ensures ScannedTo(old(assignment), old(trail), old(numPropagations), if conflict.Some? then conflict.value else |clauses|)
    {
      assert trail == trail + ScanUnits(clauses, assignment, 0).1;
      conflict := ScanLoop(t0, a0, cs0, p0, assignment, trail, numPropagations);
    }

    /** The loop of the unit scan, from the values `aStart`, the trail `tStart` and the count `pStart`. */
    method ScanLoop(ghost t0: seq<TrailEntry>, ghost a0: Values, ghost cs0: seq<Clause>, ghost p0: nat,
                    ghost aStart: Values, ghost tStart: seq<TrailEntry>, ghost pStart: nat)
      returns (conflict: Option<nat>)
      requires Live(t0, a0, cs0, p0) && decisionLevel == 0 && NoZero(clauses) && ScannedTo(aStart, tStart, pStart, 0)
      modifies this`assignment, this`trail, this`numPropagations
      ensures Live(t0, a0, cs0, p0)
      ensures conflict.Some? ==> conflict.value < |clauses| && Falsified(clauses[conflict.value], assignment)
      ensures conflict.None? ==> UnitsTrue(clauses, assignment, |clauses|)
      ensures conflict.Some? ==> UnitClash(clauses[conflict.value], assignment)
      ensures ScannedTo(aStart, tStart, pStart, if conflict.Some? then conflict.value else |clauses|)
    {
      var idx := 0;
      while idx < |clauses|
        invariant idx <= |clauses| && Live(t0, a0, cs0, p0)
        invariant UnitsTrue(clauses, assignment, idx) && ScannedTo(aStart, tStart, pStart, idx)
      {
        var clash := ScanStep(idx, t0, a0, cs0, p0, aStart, tStart, pStart);
        if clash {
          return Some(idx);
        }
        idx := idx + 1;
      }
      return None;
    }

    /** One round of the unit scan's loop: `UnitAt` on clause `idx`, carrying the scan one clause further when it does not clash. */
    method ScanStep(idx: nat, ghost t0: seq<TrailEntry>, ghost a0: Values, ghost cs0: seq<Clause>, ghost p0: nat,
                    ghost aStart: Values, ghost tStart: seq<TrailEntry>, ghost pStart: nat)
      returns (clash: bool)
      requires idx < |clauses| && Live(t0, a0, cs0, p0) && decisionLevel == 0 && NoZero(clauses)
      requires UnitsTrue(clauses, assignment, idx) && ScannedTo(aStart, tStart, pStart, idx)
      modifies this`assignment, this`trail, this`numPropagations
      ensures Live(t0, a0, cs0, p0)
      ensures clash ==> Falsified(clauses[idx], assignment) && UnitClash(clauses[idx], assignment) && ScannedTo(aStart, tStart, pStart, idx)
      ensures !clash ==> UnitsTrue(clauses, assignment, idx + 1) && ScannedTo(aStart, tStart, pStart, idx + 1)
    {
      clash := UnitAt(idx, t0, a0, cs0, p0);
      if !clash {
        ScanNext(clauses, aStart, idx);
      }
    }

    /** The unit scan has gone through the first `idx` clauses from `(t0, a0, p0)` without a clash. */
    ghost predicate ScannedTo(a0: Values, t0: seq<TrailEntry>, p0: nat, idx: nat)
      reads this`clauses, this`assignment, this`trail, this`numPropagations
    {
      idx <= |clauses| && ScanClean(clauses, a0, idx) && assignment == ScanUnits(clauses, a0, idx).0 &&
      trail == t0 + ScanUnits(clauses, a0, idx).1 && numPropagations == p0 + |ScanUnits(clauses, a0, idx).1|
    }

    /**
     * One pass of the unit scan: clause `idx` clashes exactly when it is a
     * unit clause whose variable has the opposite value; when it is a unit
     * clause over an unassigned variable, its literal is bound and pushed
     * as `(lit, 0, idx)` with one propagation counted; otherwise nothing
     * changes.
     */
    method UnitAt(idx: nat, ghost t0: seq<TrailEntry>, ghost a0: Values, ghost cs0: seq<Clause>, ghost p0: nat)
      returns (clash: bool)
      requires idx < |clauses| && Live(t0, a0, cs0, p0) && decisionLevel == 0 && NoZero(clauses)
      requires UnitsTrue(clauses, assignment, idx)
      modifies this`assignment, this`trail, this`numPropagations
      ensures Live(t0, a0, cs0, p0)
      ensures clash ==> Falsified(clauses[idx], assignment)
      ensures !clash ==> UnitsTrue(clauses, assignment, idx + 1)
      ensures clash <==> UnitClash(clauses[idx], old(assignment))
      ensures UnitFree(clauses[idx], old(assignment)) ==>
        assignment == old(assignment)[Abs(clauses[idx][0]) := Some(clauses[idx][0] > 0)] &&
        trail == old(trail) + [TrailEntry(clauses[idx][0], 0, Some(idx))] &&
        numPropagations == old(numPropagations) + 1
      ensures !UnitFree(clauses[idx], old(assignment)) ==>
        assignment == old(assignment) && trail == old(trail) && numPropagations == old(numPropagations)
    {
      var clause := clauses[idx];
      if |clause| == 1 {
        var lit := clause[0];
        BoundedAt(clauses, numVars, idx);
        assert lit in clause;
        var v := Abs(lit);
        var value := lit > 0;
        if assignment[v].None? {
          ghost var a1 := assignment;
          Imply(idx, lit, t0, a0, cs0, p0);
          UnitsTrueKept(clauses, clauses, a1, assignment, idx);
        } else if assignment[v].value != value {
          assert clause == [lit];
          return true;
        }
      }
      return false;
    }

    /**
     * `_initial_propagate`: assign the literal of every unit clause in index
     * order, reporting a unit clause whose variable already has the opposite
     * value, then run `_propagate`.
     */
    method InitialPropagate() returns (conflict: Option<nat>)
      requires Sized() && DbOk() && TrailValid() && Covered() && decisionLevel == 0 && NoZero(clauses)
      modifies this`clauses, this`watchList, this`assignment, this`trail, this`numPropagations, this`propagateHead
      ensures Sized() && DbOk() && TrailValid() && Covered()
      ensures Propagated(old(trail), old(assignment), old(clauses), old(numPropagations))
      ensures conflict.Some? ==> conflict.value < |clauses| && Falsified(clauses[conflict.value], assignment)
      ensures conflict.None? ==> UnitsTrue(clauses, assignment, |clauses|)
      ensures conflict.None? ==> propagateHead >= |trail|
      ensures ScanClean(old(clauses), old(assignment), |old(clauses)|) ==>
        var s := ScanUnits(old(clauses), old(assignment), |old(clauses)|).1;
        |old(trail)| + |s| <= |trail| && trail[..|old(trail)| + |s|] == old(trail) + s
      ensures !ScanClean(old(clauses), old(assignment), |old(clauses)|) ==>
        conflict.Some? && clauses == old(clauses) && conflict.value < |clauses| &&
        ScannedTo(old(assignment), old(trail), old(numPropagations), conflict.value) &&
        UnitClash(clauses[conflict.value], assignment)
    {
      ghost var t0, a0, cs0, p0 := trail, assignment, clauses, numPropagations;
      assert trail[..|t0|] == t0;
      conflict := AssignUnits(t0, a0, cs0, p0);
      if conflict.Some? {
        ScanCleanPrefix(cs0, a0, |cs0|, conflict.value);
        return;
      }
      ghost var t1, a1, cs1, p1 := trail, assignment, clauses, numPropagations;
      conflict := Propagate();
      ProgressTrans(t0, a0, cs0, p0, t1, a1, cs1, p1, trail, assignment, clauses, numPropagations, decisionLevel);
      if conflict.None? {
        UnitsTrueKept(cs1, clauses, a1, assignment, |clauses|);
      }
    }

    /** The `for lit in clause` loop of `_analyze_conflict`. */
    method CollectClause(clause: Clause, st: Analysis) returns (r: Analysis)
      requires forall l :: l in clause ==> Abs(l) < |st.seen|
      requires forall l :: l in st.learned ==> Abs(l) < |st.seen|
      ensures r == Collect(trail, decisionLevel, clause, 0, st)
      ensures |r.seen| == |st.seen| && forall l :: l in r.learned ==> Abs(l) < |st.seen|
    {
      r := st;
      var i := 0;
      while i < |clause|
        invariant i <= |clause| && |r.seen| == |st.seen|
        invariant Collect(trail, decisionLevel, clause, i, r) == Collect(trail, decisionLevel, clause, 0, st)
      {
        var lit := clause[i];
        var v := Abs(lit);
        if !r.seen[v] && v > 0 {
          var level := VarLevel(trail, v);
          var learned := r.learned;
          var counter := r.counter;
          if level == decisionLevel {
            counter := counter + 1;
          } else if level > 0 {
            learned := learned + [-lit];
          }
          r := Analysis(r.seen[v := true], learned, counter);
        }
        i := i + 1;
      }
      CollectSpec(trail, decisionLevel, clause, 0, st);
      forall l | l in r.learned ensures Abs(l) < |st.seen| {
        var j :| 0 <= j < |r.learned| && r.learned[j] == l;
        if j < |st.learned| {
          assert l == r.learned[..|st.learned|][j];
        }
      }
    }

    /**
     * The `while len(self.trail) > 0` loop of `_analyze_conflict`: pop trail
     * entries until the last one is over a seen variable. The popped
     * entries keep their values. On a trail that is empty from the start,
     * `p` and `var` keep the values they come in with.
     */
    method ScanTrail(seen: seq<bool>, p: Option<int>, v: nat) returns (p2: Option<int>, v2: nat)
      requires |seen| == numVars + 1 && v <= numVars && TrailOk(trail, assignment) && |assignment| == numVars + 1
      modifies this`trail
      ensures |trail| <= |old(trail)| && trail == old(trail)[..|trail|] && v2 <= numVars
      ensures forall i :: |trail| <= i < |old(trail)| ==> !seen[Abs(old(trail)[i].lit)]
      ensures |trail| > 0 ==> seen[v2] && p2 == Some(trail[|trail| - 1].lit) && v2 == Abs(trail[|trail| - 1].lit)
      ensures |old(trail)| == 0 ==> p2 == p && v2 == v
      ensures |trail| == 0 && |old(trail)| > 0 ==> p2 == Some(old(trail)[0].lit) && v2 == Abs(old(trail)[0].lit)
    {
      p2, v2 := p, v;
      while |trail| > 0
        invariant |trail| <= |old(trail)| && trail == old(trail)[..|trail|] && v2 <= numVars
        invariant forall i :: |trail| <= i < |old(trail)| ==> !seen[Abs(old(trail)[i].lit)]
        invariant |trail| < |old(trail)| ==> p2 == Some(old(trail)[|trail|].lit) && v2 == Abs(old(trail)[|trail|].lit)
        invariant |trail| == |old(trail)| ==> p2 == p && v2 == v
        decreases |trail|
      {
        assert trail[|trail| - 1] == old(trail)[|trail| - 1];
        p2 := Some(trail[|trail| - 1].lit);
        v2 := Abs(p2.value);
        if seen[v2] {
          return;
        }
        trail := trail[..|trail| - 1];
      }
    }

    /** The backtrack level `_analyze_conflict` computes from the learned literals other than the last. */
    method BacktrackLevel(learned: seq<int>) returns (level: nat)
      requires |learned| >= 1
      ensures level == if |learned| == 1 then 0 else MaxLevel(trail, learned[..|learned| - 1])
    {
      if |learned| == 1 {
        return 0;
      }
      var init := learned[..|learned| - 1];
      level := 0;
      var i := 0;
      while i < |init|
        invariant i <= |init| && level == MaxLevel(trail, init[..i])
      {
        var varLevel := VarLevel(trail, Abs(init[i]));
        level := MaxOf(level, varLevel);
        assert init[..i + 1][..i] == init[..i];
        i := i + 1;
      }
      assert init[..i] == init;
    }

    /** The `for lit in learned` loop of `_analyze_conflict`: bump every nonzero variable of the learned literals. */
    method BumpAll(lits: seq<int>)
      requires HeapOk() && activityInc > 0.0 && forall l :: l in lits ==> Abs(l) <= numVars
      modifies this`activity, this`varOrder, this`varPos
      ensures HeapOk() && varPos.Keys == old(varPos.Keys)
      ensures activity == Bumped(old(activity), lits, activityInc)
    {
      var i := 0;
      while i < |lits|
        invariant i <= |lits| && HeapOk() && varPos.Keys == old(varPos.Keys)
        invariant activity == Bumped(old(activity), lits[..i], activityInc)
      {
        var v := Abs(lits[i]);
        assert lits[..i + 1][..i] == lits[..i];
        if v > 0 {
          BumpActivity(v);
        }
        i := i + 1;
      }
      assert lits[..i] == lits;
    }

    /**
     * One round of the analysis: the pass over `clause`, which leaves `var`
     * at the variable of the clause's last literal, then the scan down the
     * trail. `t` is the trail the analysis started from, and `pIdx` locates
     * `p` in it.
     */
    method Absorb(clause: Clause, st: Analysis, p: Option<int>, v: nat, ghost pIdx: nat, ghost t: seq<TrailEntry>)
      returns (st2: Analysis, p2: Option<int>, v2: nat, ghost pIdx2: nat)
      requires |trail| <= |t| && trail == t[..|trail|] && TrailOk(trail, assignment) && ReasonsInRange(trail, clauses)
      requires |assignment| == numVars + 1 && |st.seen| == numVars + 1 && v <= numVars
      requires forall l :: l in clause ==> Abs(l) < numVars + 1
      requires forall l :: l in st.learned ==> Abs(l) <= numVars
      requires p.Some? ==> pIdx < |t| && p.value == t[pIdx].lit
      modifies this`trail
      ensures |trail| <= |t| && trail == t[..|trail|] && TrailOk(trail, assignment) && ReasonsInRange(trail, clauses)
      ensures |st2.seen| == numVars + 1 && v2 <= numVars
      ensures forall l :: l in st2.learned ==> Abs(l) <= numVars
      ensures p2.Some? ==> pIdx2 < |t| && p2.value == t[pIdx2].lit
      ensures st2 == Collect(old(trail), decisionLevel, clause, 0, st)
      ensures |trail| > 0 ==> p2 == Some(trail[|trail| - 1].lit) && v2 == Abs(trail[|trail| - 1].lit) && st2.seen[v2]
      ensures |old(trail)| == 0 ==> p2 == p && v2 == if clause == [] then v else Abs(clause[|clause| - 1])
    {
      st2 := CollectClause(clause, st);
      var vLast := if clause == [] then v else Abs(clause[|clause| - 1]);
      ghost var t1 := trail;
      p2, v2 := ScanTrail(st2.seen, p, vLast);
      TrailOkPrefix(t1, assignment, |trail|);
      ReasonsPrefix(t1, clauses, |trail|);
      pIdx2 := pIdx;
      if |trail| > 0 {
        pIdx2 := |trail| - 1;
        assert trail[pIdx2] == t1[pIdx2] == t[pIdx2];
      } else if |t1| > 0 {
        pIdx2 := 0;
        assert t1[0] == t[0];
      }
    }

    /**
     * The `while True` loop of `_analyze_conflict`, bounded by `fuel`:
     * `finished` is false when the fuel ran out. `p` is the last literal
     * read off the trail, if any.
     */
    method Walk(conflictIdx: nat, fuel: nat) returns (learned: seq<int>, p: Option<int>, finished: bool, ghost pIdx: nat)
      requires TrailOk(trail, assignment) && ReasonsInRange(trail, clauses) && Bounded(clauses, numVars)
      requires |assignment| == numVars + 1 && conflictIdx < |clauses| && clauses[conflictIdx] != []
      modifies this`trail
      ensures |trail| <= |old(trail)| && trail == old(trail)[..|trail|]
      ensures forall l :: l in learned ==> Abs(l) <= numVars
      ensures p.Some? ==> pIdx < |old(trail)| && p.value == old(trail)[pIdx].lit
    {
      var st := Analysis(seq(numVars + 1, _ => false), [], 0);
      p := None;
      var v: nat := 0;
      var clause := clauses[conflictIdx];
      BoundedAt(clauses, numVars, conflictIdx);
      pIdx := 0;
      var steps := fuel;
      while true
        invariant |trail| <= |old(trail)| && trail == old(trail)[..|trail|] && TrailOk(trail, assignment) && ReasonsInRange(trail, clauses)
        invariant |st.seen| == numVars + 1 && v <= numVars
        invariant forall l :: l in clause ==> Abs(l) < numVars + 1
        invariant forall l :: l in st.learned ==> Abs(l) <= numVars
        invariant p.Some? ==> pIdx < |old(trail)| && p.value == old(trail)[pIdx].lit
        decreases steps
      {
        if steps == 0 {
          return st.learned, p, false, pIdx;
        }
        steps := steps - 1;
        st, p, v, pIdx := Absorb(clause, st, p, v, pIdx, old(trail));
        if st.counter == 1 {
          break;
        }
        st := st.(counter := st.counter - 1, seen := st.seen[v := false]);
        var antecedent := Antecedent(trail, v);
        if antecedent.None? {
          break;
        }
        clause := clauses[antecedent.value];
        BoundedAt(clauses, numVars, antecedent.value);
      }
      return st.learned, p, true, pIdx;
    }

    /**
     * `_analyze_conflict`: at level 0 the empty clause and level 0;
     * otherwise walk the conflict clause and the antecedents of the popped
     * trail entries until one current-level literal is left or no
     * antecedent remains, append the negated last popped literal, compute
     * the backtrack level and bump the learned variables. The walk is
     * bounded by `fuel`; `None` means it ran out.
     */
    method AnalyzeConflict(conflictIdx: nat, fuel: nat) returns (r: Option<(seq<int>, nat)>)
      requires Valid() && conflictIdx < |clauses| && clauses[conflictIdx] != []
      modifies this`trail, this`activity, this`varOrder, this`varPos, this`numLearned
      ensures Valid()
      ensures |trail| <= |old(trail)| && trail == old(trail)[..|trail|]
      ensures decisionLevel == 0 ==> r == Some(([], 0)) && trail == old(trail) && activity == old(activity) && numLearned == old(numLearned)
      ensures r.None? ==> activity == old(activity) && numLearned == old(numLearned)
      ensures decisionLevel > 0 && r.Some? ==> |r.value.0| >= 1 && forall l :: l in r.value.0 ==> Abs(l) <= numVars
      ensures decisionLevel > 0 && r.Some? ==> (var learned := r.value.0; var last := learned[|learned| - 1];
        (last == 0 || exists i :: 0 <= i < |old(trail)| && last == -old(trail)[i].lit) &&
        r.value.1 == (if |learned| == 1 then 0 else MaxLevel(trail, learned[..|learned| - 1])) &&
        activity == Bumped(old(activity), learned, activityInc) && numLearned == old(numLearned) + 1)
    {
      if decisionLevel == 0 {
        return Some(([], 0));
      }
      var learnedPart, p, finished, pIdx := Walk(conflictIdx, fuel);
      if !finished {
        return None;
      }
      TrailOkPrefix(old(trail), assignment, |trail|);
      ReasonsPrefix(old(trail), clauses, |trail|);
      var learned, level := Learn(learnedPart, p);
      return Some((learned, level));
    }

    /** The end of `_analyze_conflict`: append the negated UIP literal, compute the backtrack level and bump the learned variables. */
    method Learn(learnedPart: seq<int>, p: Option<int>) returns (learned: seq<int>, level: nat)
      requires HeapOk() && activityInc > 0.0 && forall l :: l in learnedPart ==> Abs(l) <= numVars
      requires p.Some? ==> Abs(p.value) <= numVars
      modifies this`activity, this`varOrder, this`varPos, this`numLearned
      ensures HeapOk() && varPos.Keys == old(varPos.Keys)
      ensures learned == learnedPart + [if p.Some? then -p.value else 0]
      ensures level == if |learned| == 1 then 0 else MaxLevel(trail, learned[..|learned| - 1])
      ensures activity == Bumped(old(activity), learned, activityInc) && numLearned == old(numLearned) + 1
    {
      learned := learnedPart + [if p.Some? then -p.value else 0];
      level := BacktrackLevel(learned);
      BumpAll(learned);
      numLearned := numLearned + 1;
    }

    /** `_add_learned_clause`: append a nonempty clause as a learned clause with activity 0.0 and watch its first two literals. */
    method AddLearnedClause(c: Clause)
      requires Valid() && forall l :: l in c ==> Abs(l) <= numVars
      modifies this`clauses, this`learnedClauses, this`clauseActivity, this`watchList
      ensures Valid()
      ensures c == [] ==> (clauses == old(clauses) && learnedClauses == old(learnedClauses) &&
        clauseActivity == old(clauseActivity) && watchList == old(watchList))
      ensures c != [] ==> (clauses == old(clauses) + [c] && learnedClauses == old(learnedClauses) + [|old(clauses)|] &&
        clauseActivity == old(clauseActivity) + [0.0] && watchList == AddWatches(old(watchList), |old(clauses)|, c))
    {
      if c == [] {
        return;
      }
      var clauseIdx := |clauses|;
      WatchAdd(clauses, watchList, c);
      clauses := clauses + [c];
      learnedClauses := learnedClauses + [clauseIdx];
      clauseActivity := clauseActivity + [0.0];
      if |c| >= 1 {
        watchList := watchList[c[0] := Watches(watchList, c[0]) + [clauseIdx]];
      }
      if |c| >= 2 {
        watchList := watchList[c[1] := Watches(watchList, c[1]) + [clauseIdx]];
      }
    }

    /** The first loop of `_reduce_learned_clauses`: an (activity, index) pair per learned clause that has an activity slot. */
    method CollectPairs() returns (pairs: seq<Pair>)
      ensures pairs == ActivityPairs(learnedClauses, |originalClauses|, clauseActivity)
    {
      pairs := [];
      var i := 0;
      while i < |learnedClauses|
        invariant i <= |learnedClauses|
        invariant pairs == ActivityPairs(learnedClauses[..i], |originalClauses|, clauseActivity)
      {
        var idx := learnedClauses[i];
        var activityIdx := idx - |originalClauses|;
        if activityIdx >= 0 && activityIdx < |clauseActivity| {
          pairs := pairs + [(clauseActivity[activityIdx], idx)];
        }
        assert learnedClauses[..i + 1][..i] == learnedClauses[..i];
        i := i + 1;
      }
      assert learnedClauses[..i] == learnedClauses;
    }

    /** The second loop of `_reduce_learned_clauses`: the indices after the kept prefix that are no antecedent. */
    method CollectVictims(sorted: seq<Pair>, keep: nat) returns (victims: set<nat>)
      ensures victims == VictimsFrom(sorted, keep, trail)
    {
      victims := {};
      var j := keep;
      while j < |sorted|
        invariant keep <= j
        invariant victims + VictimsFrom(sorted, j, trail) == VictimsFrom(sorted, keep, trail)
        decreases |sorted| - j
      {
        var idx := sorted[j].1;
        var isReason := IsReason(trail, idx);
        if !isReason {
          victims := victims + {idx};
        }
        j := j + 1;
      }
    }

    /** The third loop of `_reduce_learned_clauses`: unwatch every victim clause in range and mark it deleted by emptying it. */
    method RemoveClauses(victims: set<nat>)
      requires DbOk()
      modifies this`clauses, this`watchList
      ensures DbOk() && |clauses| == |old(clauses)|
      ensures forall i :: 0 <= i < |clauses| ==> clauses[i] == if i in victims then [] else old(clauses)[i]
    {
      var rest := victims;
      while rest != {}
        invariant DbOk() && |clauses| == |old(clauses)| && rest <= victims
        invariant forall i :: 0 <= i < |clauses| ==> clauses[i] == if i in victims - rest then [] else old(clauses)[i]
        decreases rest
      {
        var clauseIdx :| clauseIdx in rest;
        if clauseIdx < |clauses| {
          RemoveClause(clauseIdx);
        }
        rest := rest - {clauseIdx};
      }
    }

    /** One pass of the third loop: drop clause `clauseIdx` from the watch lists of its first two literals and empty it. */
    method RemoveClause(clauseIdx: nat)
      requires DbOk() && clauseIdx < |clauses|
      modifies this`clauses, this`watchList
      ensures DbOk()
      ensures clauses == old(clauses)[clauseIdx := []]
      ensures watchList == DropWatches(old(watchList), clauseIdx, old(clauses)[clauseIdx])
    {
      var clause := clauses[clauseIdx];
      WatchDrop(clauses, watchList, clauseIdx);
      BoundedEmpty(clauses, numVars, clauseIdx);
      if |clause| >= 1 && clauseIdx in Watches(watchList, clause[0]) {
        watchList := watchList[clause[0] := RemoveFirst(Watches(watchList, clause[0]), clauseIdx)];
      }
      if |clause| >= 2 && clauseIdx in Watches(watchList, clause[1]) {
        watchList := watchList[clause[1] := RemoveFirst(Watches(watchList, clause[1]), clauseIdx)];
      }
      clauses := clauses[clauseIdx := []];
    }

    /**
     * `_reduce_learned_clauses`: sort the learned clauses by descending
     * (activity, index), keep the first half, and delete every other one
     * that is not the antecedent of a trail entry.
     */
    method ReduceLearnedClauses()
      requires Valid()
      modifies this`clauses, this`watchList, this`learnedClauses
      ensures Valid() && |clauses| == |old(clauses)|
      ensures var sorted := SortDesc(ActivityPairs(old(learnedClauses), |originalClauses|, clauseActivity));
        var victims := VictimsFrom(sorted, |sorted| / 2, trail);
        (forall i :: 0 <= i < |clauses| ==> clauses[i] == if i in victims then [] else old(clauses)[i]) &&
        learnedClauses == Without(old(learnedClauses), victims)
      ensures forall i :: 0 <= i < |clauses| && IsReason(trail, i) ==> clauses[i] == old(clauses)[i]
      ensures forall i :: i in old(learnedClauses) && i !in learnedClauses ==> i < |clauses| ==> clauses[i] == []
    {
      var pairs := CollectPairs();
      var sorted := SortDesc(pairs);
      var keep := |sorted| / 2;
      var victims := CollectVictims(sorted, keep);
      VictimsSpec(sorted, keep, trail);
      RemoveClauses(victims);
      learnedClauses := Without(learnedClauses, victims);
    }

    /** The counters `_get_stats` reports. */
    function CurrentStats(): Stats
      reads this`numDecisions, this`numPropagations, this`numConflicts, this`numLearned, this`numRestarts
    {
      Stats(numDecisions, numPropagations, numConflicts, numLearned, numRestarts)
    }

    /** The clause loop of `_init_data_structures`: copy the input clauses and watch the first two literals of each. */
    method LoadClauses()
      requires Bounded(originalClauses, numVars) && watchList == map[]
      modifies this`clauses, this`watchList
      ensures clauses == originalClauses && DbOk()
    {
      clauses := [];
      WatchesNone();
      var i := 0;
      while i < |originalClauses|
        invariant i <= |originalClauses| && clauses == originalClauses[..i] && WatchesExact(clauses, watchList)
      {
        var clauseLits := originalClauses[i];
        var clauseIdx := |clauses|;
        WatchAdd(clauses, watchList, clauseLits);
        clauses := clauses + [clauseLits];
        if |clauseLits| >= 1 {
          watchList := watchList[clauseLits[0] := Watches(watchList, clauseLits[0]) + [clauseIdx]];
        }
        if |clauseLits| >= 2 {
          watchList := watchList[clauseLits[1] := Watches(watchList, clauseLits[1]) + [clauseIdx]];
        }
        assert originalClauses[..i + 1] == originalClauses[..i] + [clauseLits];
        i := i + 1;
      }
      assert originalClauses[..i] == originalClauses;
    }

    /** The heap loop of `_init_data_structures`: insert every variable `1..numVars` into an empty heap. */
    method LoadHeap()
      requires |activity| == numVars + 1
      modifies this`varOrder, this`varPos
      ensures HeapOk() && varPos.Keys == Range(numVars + 1)
    {
      varOrder := [];
      varPos := map[];
      var v := 1;
      while v <= numVars
        invariant 1 <= v <= numVars + 1 && HeapOk() && varPos.Keys == Range(v)
      {
        HeapInsert(v);
        v := v + 1;
      }
    }

    /**
     * `_init_data_structures`: load and watch the clauses, fill the heap with
     * every variable, and reset the trail, values, level, learned list,
     * propagation head and counters. Neither the watch lists nor the clause
     * activities are reset, so this starts from a solver whose watch lists
     * are still empty.
     */
    method InitDataStructures()
      requires |activity| == numVars + 1 && activityInc > 0.0 && Bounded(originalClauses, numVars) && watchList == map[]
      modifies this`clauses, this`watchList, this`varOrder, this`varPos, this`trail, this`trailLim, this`assignment
      modifies this`decisionLevel, this`learnedClauses, this`propagateHead
      modifies this`numDecisions, this`numPropagations, this`numConflicts, this`numLearned, this`numRestarts
      ensures Valid()
      ensures clauses == originalClauses && varPos.Keys == Range(numVars + 1)
      ensures trail == [] && trailLim == [] && assignment == seq(numVars + 1, _ => None) && decisionLevel == 0
      ensures learnedClauses == [] && propagateHead == 0 && CurrentStats() == Stats(0, 0, 0, 0, 0)
    {
      LoadClauses();
      LoadHeap();
      ResetSearch();
    }

    /** The resets of `_init_data_structures`: empty trail, no values, level 0, no learned clauses, counters at zero. */
    method ResetSearch()
      modifies this`trail, this`trailLim, this`assignment, this`decisionLevel, this`learnedClauses, this`propagateHead
      modifies this`numDecisions, this`numPropagations, this`numConflicts, this`numLearned, this`numRestarts
      ensures trail == [] && trailLim == [] && assignment == seq(numVars + 1, _ => None) && decisionLevel == 0
      ensures learnedClauses == [] && propagateHead == 0 && CurrentStats() == Stats(0, 0, 0, 0, 0)
    {
      trail := [];
      trailLim := [];
      assignment := seq(numVars + 1, _ => None);
      decisionLevel := 0;
      learnedClauses := [];
      propagateHead := 0;
      numDecisions := 0;
      numPropagations := 0;
      numConflicts := 0;
      numLearned := 0;
      numRestarts := 0;
    }

    /** The model `solve` returns: each variable with its value. */
    method BuildModel() returns (model: map<nat, bool>)
      requires |assignment| == numVars + 1 && forall v :: 1 <= v <= numVars ==> assignment[v].Some?
      ensures model.Keys == Range(numVars + 1)
      ensures forall v :: v in model ==> assignment[v] == Some(model[v])
    {
      model := map[];
      var v := 1;
      while v <= numVars
        invariant 1 <= v <= numVars + 1 && model.Keys == Range(v)
        invariant forall u :: u in model ==> assignment[u] == Some(model[u])
      {
        model := model[v := assignment[v].value];
        v := v + 1;
      }
    }

    /**
     * The `while True` loop of `solve`, one round per unit of `fuel`, which
     * stands in for the time limit: propagate; on a conflict at level 0
     * report unsatisfiable, otherwise analyse it, backtrack, add the learned
     * clause, decay, reduce when over the learned-clause limit and restart
     * every 100 conflicts; without a conflict report satisfiable once every
     * variable is on the trail, or else decide.
     */
    method Search(fuel: nat) returns (result: Option<bool>, model: Option<map<nat, bool>>)
      requires Valid()
      modifies this
      ensures Valid()
      ensures result == Some(true) <==> model.Some?
      ensures model.Some? ==> |trail| == numVars && model.value.Keys == Range(numVars + 1)
      ensures model.Some? ==> forall v :: v in model.value ==> assignment[v] == Some(model.value[v])
      ensures result == Some(false) ==> decisionLevel == 0 && exists c :: 0 <= c < |clauses| && Falsified(clauses[c], assignment)
      ensures old(clauses) == [] ==> clauses == []
    {
      var steps := fuel;
      while true
        invariant Valid()
        invariant old(clauses) == [] ==> clauses == []
        decreases steps
      {
        if steps == 0 {
          return None, None;
        }
        steps := steps - 1;
        var stop, conflicted;
        stop, result, model, conflicted := Round(steps);
        if stop {
          return;
        }
      }
    }

    /**
     * One round of the `while True` loop of `solve`: propagate; on a
     * conflict count it, stop with unsatisfiable at level 0 or else resolve
     * it (stopping without an answer when the analysis runs out of `fuel`);
     * without a conflict stop with the model when every variable is on the
     * trail, or else decide. A conflict needs a clause, so a round on an
     * empty database never adds one.
     */
    method Round(fuel: nat) returns (stop: bool, result: Option<bool>, model: Option<map<nat, bool>>, conflicted: bool)
      requires Valid()
      modifies this
      ensures Valid()
      ensures result == Some(true) <==> model.Some?
      ensures result.Some? ==> stop
      ensures model.Some? ==> |trail| == numVars && model.value.Keys == Range(numVars + 1)
      ensures model.Some? ==> forall v :: v in model.value ==> assignment[v] == Some(model.value[v])
      ensures result == Some(false) ==> decisionLevel == 0 && exists c :: 0 <= c < |clauses| && Falsified(clauses[c], assignment)
      ensures old(clauses) == [] ==> clauses == []
      ensures numConflicts == old(numConflicts) + (if conflicted then 1 else 0)
      ensures result == Some(false) ==> conflicted
      ensures model.Some? ==> !conflicted
      ensures !conflicted && !stop ==>
        (decisionLevel == old(decisionLevel) + 1 && numDecisions == old(numDecisions) + 1 && |trail| > 0 &&
         trail[|trail| - 1].lit > 0 && trail[|trail| - 1].antecedent.None? && trail[|trail| - 1].level == decisionLevel &&
         trailLim[decisionLevel - 1] == |trail| - 1) ||
        ((forall u :: 1 <= u <= numVars ==> assignment[u].Some?) &&
         decisionLevel == old(decisionLevel) && numDecisions == old(numDecisions))
    {
      var conflict := Propagate();
      if conflict.Some? {
        numConflicts := numConflicts + 1;
        if decisionLevel == 0 {
          return true, Some(false), None, true;
        }
        var done := Resolve(conflict.value, fuel);
        return !done, None, None, true;
      }
      if |trail| == numVars {
        TrailLength(trail, assignment);
        var m := BuildModel();
        return true, Some(true), Some(m), false;
      }
      var _ := MakeDecision();
      return false, None, None, false;
    }

    /**
     * The conflict branch of `solve` after the level check: analyse,
     * backtrack, add the learned clause, decay, reduce and restart. `false`
     * when the analysis ran out of `fuel`.
     */
    method Resolve(conflictIdx: nat, fuel: nat) returns (done: bool)
      requires Valid() && decisionLevel > 0 && conflictIdx < |clauses| && |clauses[conflictIdx]| >= 2
      modifies this`trail, this`activity, this`varOrder, this`varPos, this`numLearned
      modifies this`clauses, this`learnedClauses, this`clauseActivity, this`watchList, this`activityInc
      modifies this`assignment, this`trailLim, this`decisionLevel, this`propagateHead, this`numRestarts
      ensures Valid()
      ensures !done ==> clauses == old(clauses) && learnedClauses == old(learnedClauses) && decisionLevel == old(decisionLevel)
      ensures done ==> |clauses| == |old(clauses)| + 1 && numLearned == old(numLearned) + 1
    {
      var analysis := AnalyzeConflict(conflictIdx, fuel);
      if analysis.None? {
        return false;
      }
      var learned := analysis.value.0;
      var level := analysis.value.1;
      Backtrack(level);
      Maintain(learned);
      return true;
    }

    /** The rest of the conflict branch: add the learned clause, decay, reduce when over the limit, and restart every 100 conflicts. */
    method Maintain(learned: Clause)
      requires Valid() && forall l :: l in learned ==> Abs(l) <= numVars
      modifies this`clauses, this`learnedClauses, this`clauseActivity, this`watchList, this`activityInc
      modifies this`assignment, this`varOrder, this`varPos, this`trail, this`trailLim, this`decisionLevel, this`propagateHead, this`numRestarts
      ensures Valid()
      ensures activityInc == old(activityInc) / activityDecay
      ensures |clauses| == |old(clauses)| + (if learned == [] then 0 else 1)
      ensures |old(learnedClauses)| + (if learned == [] then 0 else 1) <= maxLearnedClauses ==>
        clauses == old(clauses) + (if learned == [] then [] else [learned])
      ensures numRestarts == old(numRestarts) + (if numConflicts % 100 == 0 then 1 else 0)
      ensures numConflicts % 100 == 0 ==> decisionLevel == 0
    {
      AddLearnedClause(learned);
      DecayActivities();
      Housekeep();
    }

    /** The last two steps of the conflict branch: reduce the learned clauses when over the limit, and restart every 100 conflicts. */
    method Housekeep()
      requires Valid()
      modifies this`clauses, this`learnedClauses, this`watchList
      modifies this`assignment, this`varOrder, this`varPos, this`trail, this`trailLim, this`decisionLevel, this`propagateHead, this`numRestarts
      ensures Valid() && |clauses| == |old(clauses)|
      ensures |old(learnedClauses)| <= maxLearnedClauses ==> clauses == old(clauses)
      ensures numRestarts == old(numRestarts) + (if numConflicts % 100 == 0 then 1 else 0)
      ensures numConflicts % 100 == 0 ==> decisionLevel == 0
    {
      if |learnedClauses| > maxLearnedClauses {
        ReduceLearnedClauses();
      }
      if numConflicts % 100 == 0 {
        Restart();
      }
    }

    /**
     * `solve`: initialise, report unsatisfiable for an empty clause or a
     * conflict among the unit clauses, and run the main loop. `None` is the
     * time-out answer, here the exhaustion of `fuel`. On a solver from the
     * filtering constructor the empty-clause test cannot fire, and when every
     * input clause was empty nothing is left to falsify, so the answer is
     * never "unsatisfiable"; only a solver from `Unfiltered` reports the
     * empty clause.
     */
    method Solve(fuel: nat) returns (result: Option<bool>, model: Option<map<nat, bool>>, stats: Stats)
      requires |activity| == numVars + 1 && activityInc > 0.0 && watchList == map[]
      requires Bounded(originalClauses, numVars) && NoZero(originalClauses)
      modifies this
      ensures Valid() && stats == CurrentStats()
      ensures [] in originalClauses ==> result == Some(false) && model.None?
      ensures result == Some(true) <==> model.Some?
      ensures model.Some? ==> |trail| == numVars && model.value.Keys == Range(numVars + 1)
      ensures model.Some? ==> forall v :: v in model.value ==> assignment[v] == Some(model.value[v])
      ensures result == Some(false) && [] !in originalClauses ==>
        decisionLevel == 0 && exists c :: 0 <= c < |clauses| && Falsified(clauses[c], assignment)
      ensures originalClauses == [] ==> result != Some(false)
    {
      InitDataStructures();
      if [] in clauses {
        return Some(false), None, CurrentStats();
      }
      var conflict := InitialPropagate();
      if conflict.Some? {
        return Some(false), None, CurrentStats();
      }
      result, model := Search(fuel);
      stats := CurrentStats();
    }
  }
}
