# A verified model of a small SAT-solver toolkit

The repository is a Python toolkit for propositional satisfiability over
formulas in conjunctive normal form (CNF). A formula is a list of clauses. A
clause is a list of non-zero integer literals: `v` means variable `v` is true
and `-v` means it is false. The toolkit has four parts:

- `DPLLSolver` (src/dpll_solver.py) is a recursive backtracking solver. It
  simplifies its clause list in place after every assignment. It runs unit
  propagation to a fixpoint and pure-literal elimination.
- `CDCLSolver` (src/cdcl_solver.py) is a conflict-driven clause-learning
  solver. Its state is:
  - a clause database with two watched literals per clause (positions 0
    and 1);
  - a trail of `(literal, level, antecedent)` entries with level boundaries;
  - an indexed binary max-heap of variables keyed by activity;
  - learned-clause insertion and reduction, and restarts.
- Two benchmark encoders (src/benchmark_generator.py): the pigeonhole
  formula and a parity (XOR-chain) formula.
- A DIMACS CNF reader and writer (src/dimacs_parser.py), the text format of
  the 1993 DIMACS Challenge.

The Dafny project has these modules:

| module | file | contents |
|---|---|---|
| `Wrappers` | wrappers.dfy | `Option` (Python's `Optional`) and `Result` (a value, or the message of the `ValueError` raised) |
| `Cnf` | cnf.dfy | one literal and clause semantics shared by all modules: `LitTrue`, `ClauseSat`, `Sat`, `Extends` |
| `Dpll` | dpll.dfy | the DPLL solver |
| `CdclHeap`, `CdclDb`, `CdclAnalyze`, `CdclReduce` | cdcl_heap.dfy, cdcl_db.dfy, cdcl_analyze.dfy, cdcl_reduce.dfy | the CDCL solver's specification functions and lemmas, one file per concern |
| `Cdcl` | cdcl.dfy | the CDCL solver itself |
| `Generator` | generator.dfy | the two encoders |
| `Dimacs` | dimacs.dfy | the reader and writer |

Each part takes the form the source has:

- **DPLL: a class.** `Dpll.DpllSolver` updates `clauses`, `assignment` and
  three counters in place. Its central invariant is
  `clauses == Reduce(originalClauses, assignment)`: the working list is
  exactly the original clauses the assignment does not satisfy, in order,
  each without its falsified literals. On top of that invariant the model
  proves soundness and completeness of `solve`.
- **CDCL: a class.** `Cdcl.CdclSolver` has `seq` and `map` fields that its
  methods update. Each method is proved against functions of the old state:
  - `_propagate` is proved case by case;
  - `_backtrack` is exact;
  - the watch index stays exact;
  - the heap stays indexed and ordered.
- **Encoders: loops plus spec functions.** Each loop method is proved equal
  to a pure spec function. Clause counts, variable ranges and the meaning of
  every clause group are then proved about those functions.
- **DIMACS: loops over lines.** Both the parser and the writer are loops over
  a sequence of lines, equal to the spec functions `Parse` and `Written`. The
  write-then-read round trip is proved: `Parse(Written(n, cs)) ==
  Ok(Dimacs(n, |cs|, NonEmpty(cs)))`.

## Model

| member | source | states |
|---|---|---|
| Cnf.NonEmpty | src/cdcl_solver.py:30 | a clause is kept exactly when it is in the input and non-empty; the result is no longer than the input |
| Cnf.UnsatAnti | src/dpll_solver.py:125-130 | a formula false under an extension was false under the smaller assignment |
| Cnf.SatConcat | src/dpll_solver.py:220-222 | a concatenation of clause lists is satisfied exactly when both parts are |
| Dpll.RemoveLit | src/dpll_solver.py:297 | the literals kept are exactly those different from the removed literal |
| Dpll.Simplify | src/dpll_solver.py:285-303 | every surviving clause mentions neither the now-true literal nor its negation, and no clause is added |
| Dpll.SimplifyAppend | src/dpll_solver.py:290-303 | simplification works clause by clause and keeps the survivors' order |
| Dpll.SimplifyUntrue | src/dpll_solver.py:295-301 | a clause without the true literal stays in the list, losing only the false literal |
| Dpll.ReduceClauseDropped | src/dpll_solver.py:292-294 | an unsatisfied clause holding the new true literal leaves the working list |
| Dpll.RemoveStep | src/dpll_solver.py:295-298 | removing the new false literal from a reduced clause gives the clause reduced under the extended assignment |
| Dpll.SimplifyReduce | src/dpll_solver.py:159-164 | simplifying the working list of `a` with `v := value` gives exactly the working list of `a[v := value]`, so the invariant survives every assignment |
| Dpll.NoneAssignedReduce | src/dpll_solver.py:39-40 | with nothing assigned the working list is the original formula |
| Dpll.ReduceHas | src/dpll_solver.py:288-303 | every unsatisfied original clause has its reduced form in the working list |
| Dpll.ReduceFrom | src/dpll_solver.py:288-303 | every working clause is the reduced form of an unsatisfied original clause |
| Dpll.ReduceVars | src/dpll_solver.py:236-243 | the variables left in the working list are original variables and unassigned |
| Dpll.ReduceLitsShrink | src/dpll_solver.py:277-303 | literals only disappear from the working list as the assignment grows |
| Dpll.UnitLiterals | src/dpll_solver.py:180-191 | a literal is reported exactly when it forms a one-literal clause |
| Dpll.PosVarsLits | src/dpll_solver.py:202-208 | a variable has a positive count exactly when it occurs as a positive literal |
| Dpll.NegVarsLits | src/dpll_solver.py:202-208 | a variable has a negative count exactly when its negation occurs |
| Dpll.PureFromCountsHas | src/dpll_solver.py:210-216 | `v` is reported iff `v` is unassigned with positive but no negative occurrences; `-v` iff the reverse |
| Dpll.PureLiterals | src/dpll_solver.py:193-218 | a literal `l` is pure iff it occurs, its negation does not, and its variable is unassigned |
| Dpll.ClauseStep | src/dpll_solver.py:288-294 | a clause is satisfied after a new assignment iff it was before or it holds the new true literal |
| Dpll.UnitForced | src/dpll_solver.py:147-161 | every solution extending the assignment makes a unit literal true |
| Dpll.UnitConflict | src/dpll_solver.py:151-155 | a unit literal already assigned the opposite value rules out every solution |
| Dpll.UnitStep | src/dpll_solver.py:158-161 | assigning a unit literal loses no solution and assigns exactly one more original variable |
| Dpll.EmptyClauseUnsat | src/dpll_solver.py:100-102 | an empty working clause means no extension of the assignment satisfies the formula |
| Dpll.EmptyReduceSat | src/dpll_solver.py:96-98 | an empty working list means the assignment satisfies every original clause |
| Dpll.PurePreservesSat | src/dpll_solver.py:168-178 | making a literal true whose negation is absent from the working list keeps the formula satisfiable |
| Dpll.PureStep | src/dpll_solver.py:172-178 | one pure-literal assignment keeps satisfiability and the extension of the entry assignment |
| Dpll.SplitOnVar | src/dpll_solver.py:120-130 | if neither value of an unassigned variable leads to a solution, none exists |
| Dpll.NonEmptyHasVar | src/dpll_solver.py:114-118 | a non-empty working list with no empty clause still mentions a variable |
| Dpll.DpllSolver.constructor | src/dpll_solver.py:16-35 | the solver keeps the variable count and the clauses, with an empty assignment and zero counters |
| Dpll.DpllSolver.InitDataStructures | src/dpll_solver.py:37-43 | the working list is the original clauses, the assignment is empty, the counters are zero, and the invariant holds |
| Dpll.DpllSolver.Solve | src/dpll_solver.py:51-78 | the verdict is true iff some assignment satisfies the clauses; then the returned model satisfies them; otherwise no model is returned; the stats are the counters |
| Dpll.DpllSolver.Dpll | src/dpll_solver.py:80-130 | true leaves an assignment satisfying the original clauses; false means no extension of the entry assignment satisfies them; the invariant is kept |
| Dpll.DpllSolver.Branch | src/dpll_solver.py:120-130 | trying True then False: either branch succeeding gives a model, both failing proves no extension is a model |
| Dpll.DpllSolver.UnitPropagate | src/dpll_solver.py:132-166 | true only at a fixpoint, with no unit clause left in the working list, and then no solution is lost; false only when no solution exists; a complementary pair of unit clauses such as `(x1)(-x1)` always gives false; the assignment only grows; propagations grow by the number of new assignments |
| Dpll.DpllSolver.PropagatePass | src/dpll_solver.py:141-164 | a completed pass over the unit literals always assigns something, keeps every solution and leaves no complementary pair among the units it started from; a stopped pass proves no solution exists |
| Dpll.DpllSolver.PropagateUnit | src/dpll_solver.py:148-164 | a unit literal bound the other way is a conflict that rules out every solution; otherwise the literal ends up true, and it is newly assigned exactly when its variable was unbound, with one propagation counted |
| Dpll.UnitUnassigned | src/dpll_solver.py:147-151 | the variable of a unit clause of the working list is unassigned, so the first literal of a pass is always assigned |
| Dpll.NoComplementaryUnits | src/dpll_solver.py:147-164 | a pass that leaves every unit literal true cannot have started from a complementary pair of unit clauses |
| Dpll.DpllSolver.PureLiteralEliminate | src/dpll_solver.py:168-178 | every pure literal found at entry becomes true, the assignment gains exactly their variables and keeps its old values, and a satisfiable formula stays satisfiable |
| Dpll.DpllSolver.PureLoop | src/dpll_solver.py:172-178 | the loop over the pure literals makes each of them true and adds exactly their variables to the assignment |
| Dpll.DpllSolver.PureVisit | src/dpll_solver.py:173-178 | one pure literal: its unbound variable is set to the literal's sign and nothing else changes in the assignment |
| Dpll.DpllSolver.AssignPure | src/dpll_solver.py:176-178 | binding a pure literal keeps the invariant and satisfiability and sets exactly its variable; no other pure literal shares that variable |
| Dpll.PureBookStep | src/dpll_solver.py:172-178 | one visited pure literal moves from the unvisited to the visited set, is true, and adds its variable to the assignment's keys |
| Dpll.DpllSolver.AllClausesSatisfied | src/dpll_solver.py:220-222 | an empty working list is satisfied by every assignment |
| Dpll.DpllSolver.HasEmptyClause | src/dpll_solver.py:224-226 | true exactly when the empty clause is in the working list, and then no assignment satisfies it |
| Dpll.DpllSolver.FindUnitClauses | src/dpll_solver.py:180-191 | a literal is reported exactly when it forms a one-literal working clause |
| Dpll.DpllSolver.FindPureLiterals | src/dpll_solver.py:193-218 | the pure literals of the working list over unassigned variables, both directions |
| Dpll.DpllSolver.ChooseVariable | src/dpll_solver.py:228-245 | some unassigned variable occurring in the working list, or None exactly when every such variable is assigned |
| Dpll.DpllSolver.TryAssignment | src/dpll_solver.py:247-275 | success gives a model; on failure no solution extends `assignment[v := value]`, and the clauses and assignment are restored exactly |
| Dpll.DpllSolver.Assign | src/dpll_solver.py:263-265 | the assignment gains `v := value`, the list is simplified, and the invariant holds for the new assignment |
| Dpll.DpllSolver.SimplifyWithAssignment | src/dpll_solver.py:277-303 | the loop builds exactly `Simplify` of the old working list |
| CdclDb.LitValueMeaning | src/cdcl_solver.py:455-461 | the lookup is true, false or None exactly as the literal is true, false or unassigned under the shared semantics |
| CdclDb.VarLevelSpec | src/cdcl_solver.py:463-468 | the level is -1 exactly for a variable not on the trail, and otherwise the level of a trail entry on that variable |
| CdclDb.Antecedent | src/cdcl_solver.py:470-475 | a returned antecedent is that of a trail entry on the variable |
| CdclDb.LookupAt | src/cdcl_solver.py:463-475 | on a trail with distinct variables, the level and antecedent lookups read that variable's own entry |
| CdclDb.RemoveFirst | src/cdcl_solver.py:244 | `list.remove` takes away exactly one occurrence |
| CdclDb.WatchedSafe | src/cdcl_solver.py:215-227 | a clause on the watch list of `l` has position 0, and a one-literal one holds `l` there, so the position tests cannot fail |
| CdclDb.Watched | src/cdcl_solver.py:79-82 | a clause is on the watch list of each of its first two literals |
| CdclDb.WatchMove | src/cdcl_solver.py:241-245 | swapping in a new watch and moving the clause index between lists keeps the watch index exact |
| CdclDb.WatchAdd | src/cdcl_solver.py:349-353 | appending a clause watched on its first two literals keeps the watch index exact |
| CdclDb.WatchDrop | src/cdcl_solver.py:434-442 | dropping both watches of a clause and emptying it keeps the watch index exact |
| CdclDb.FirstNonFalse | src/cdcl_solver.py:234-239 | the first position at or after 2 whose literal is not false, or None when all of them are false |
| CdclDb.WatchStep | src/cdcl_solver.py:218-257 | a watch move swaps the watched position with a later position holding a literal that is not false |
| CdclDb.WatchConflict | src/cdcl_solver.py:248-250 | a clause reported as a conflict has at least two literals, all false |
| CdclDb.WatchImplied | src/cdcl_solver.py:251-257 | the implied literal is unassigned and its clause forces it: all other literals are false |
| CdclDb.WatchOtherTrue | src/cdcl_solver.py:229-232 | a clause skipped for its other watch is satisfied |
| CdclDb.TrailLength | src/cdcl_solver.py:167 | a consistent trail holds at most one entry per variable, and a full trail assigns every variable |
| CdclDb.TrailPush | src/cdcl_solver.py:185-187 | pushing a true literal on an unassigned variable keeps the trail consistent |
| CdclDb.TrailCut | src/cdcl_solver.py:369-378 | cutting the trail and unassigning exactly the removed variables leaves a consistent trail |
| CdclDb.ReasonKept | src/cdcl_solver.py:243 | a clause forcing a literal still forces it after its literals are permuted and more variables are assigned |
| CdclDb.FalsifiedKept | src/cdcl_solver.py:243 | a falsified clause stays falsified after a permutation and more assignments |
| CdclHeap.Swap | src/cdcl_solver.py:533 | the two positions are exchanged, the others kept, the multiset unchanged |
| CdclHeap.SwapIndexed | src/cdcl_solver.py:533-535 | swapping two slots and recording both positions keeps `var_pos[var_order[i]] == i` and the key set |
| CdclHeap.SwapUp | src/cdcl_solver.py:527-536 | one sift-up swap moves the only heap defect from a slot to its parent |
| CdclHeap.StopUp | src/cdcl_solver.py:529-530 | sift-up stopping at a parent with at least the variable's activity leaves an ordered heap |
| CdclHeap.RaiseKey | src/cdcl_solver.py:479 | raising one variable's activity breaks the heap order only between its slot and the parent |
| CdclHeap.AppendKey | src/cdcl_solver.py:501-503 | appending a slot breaks the heap order only between the new slot and its parent |
| CdclHeap.AppendIndexed | src/cdcl_solver.py:501-502 | recording the new position and appending keeps the heap index exact |
| CdclHeap.SwapDown | src/cdcl_solver.py:557-560 | swapping with the larger child moves the only heap defect down to that child |
| CdclHeap.StopDown | src/cdcl_solver.py:553-554 | percolate-down stopping when no child is larger leaves an ordered heap |
| CdclHeap.RootIsMax | src/cdcl_solver.py:510 | the root of an ordered heap has the largest activity of all the slots |
| CdclHeap.RootDominates | src/cdcl_solver.py:505-519 | the root's activity is at least that of every variable in the heap |
| CdclHeap.PopIndexed | src/cdcl_solver.py:510-517 | removing the root and moving the last slot to the root keeps the heap index exact |
| CdclHeap.PopStep | src/cdcl_solver.py:510-517 | after the root is removed and the last slot moved up, only the root is out of order, and the root left the multiset and the key set |
| CdclHeap.KeyOutside | src/cdcl_solver.py:487-489 | changing the activity of a variable not in the heap keeps the heap ordered |
| CdclAnalyze.Collect | src/cdcl_solver.py:283-294 | the pass over a clause keeps the length of the seen flags |
| CdclAnalyze.CollectSpec | src/cdcl_solver.py:283-294 | seen flags stay set and every literal's variable ends up seen; learned literals are only appended, each the negation of a clause literal at a positive level other than the current one; the counter never drops |
| CdclAnalyze.MaxLevelSpec | src/cdcl_solver.py:323-328 | the backtrack level bounds the level of every literal and is 0 or the level of one of them |
| CdclAnalyze.BumpedAt | src/cdcl_solver.py:330-334 | each variable's activity grows by the increment once per learned literal over it |
| CdclAnalyze.BumpedZero | src/cdcl_solver.py:331-334 | bumping never touches the unused slot 0 |
| CdclReduce.ActivityPairsSpec | src/cdcl_solver.py:413-417 | a pair is collected exactly for a learned index whose activity slot exists, carrying that activity; at most one per learned clause |
| CdclReduce.InsertDescPerm | src/cdcl_solver.py:420 | inserting into the sorted list adds exactly the one pair |
| CdclReduce.InsertDescSorted | src/cdcl_solver.py:420 | inserting into a descending list keeps it descending |
| CdclReduce.SortDesc | src/cdcl_solver.py:420 | `sort(reverse=True)` yields a permutation of the pairs in descending tuple order |
| CdclReduce.VictimsSpec | src/cdcl_solver.py:423-428 | a clause is chosen for deletion exactly when its pair is after the kept prefix and no trail entry has it as antecedent |
| CdclReduce.VictimsCard | src/cdcl_solver.py:421-428 | at most the unkept half is deleted |
| CdclReduce.KeepsNewest | src/cdcl_solver.py:420-424 | with all clause activities at 0.0 the kept half holds the largest indices, the newest clauses |
| CdclReduce.Without | src/cdcl_solver.py:445 | an index is kept exactly when it was learned and is not a victim |
| Cdcl.EmptyClauseDropped | src/cdcl_solver.py:30 | dropping empty clauses turns the unsatisfiable formula `[[]]` into the empty formula, which every assignment satisfies |
| Cdcl.CdclSolver.constructor | src/cdcl_solver.py:21-68 | the solver keeps the input clauses without the empty ones, so no empty clause is left for `solve` to find; an all-None value list and zero activities over `0..numVars`, increment 1.0, an empty trail and heap, and zero counters |
| Cdcl.CdclSolver.Unfiltered | src/cdcl_solver.py:21-68 | the corrected construction: the same initial state, keeping every input clause, empty ones included |
| Cdcl.CdclSolver.HeapDecrease | src/cdcl_solver.py:521-536 | sift-up restores the ordered, indexed heap, keeps its contents, and does nothing for a variable not in the heap |
| Cdcl.CdclSolver.HeapPercolateDown | src/cdcl_solver.py:538-560 | percolate-down restores the ordered, indexed heap and keeps its contents |
| Cdcl.CdclSolver.LargestOf | src/cdcl_solver.py:544-551 | the slot or a child with strictly larger activity, whichever dominates both children |
| Cdcl.CdclSolver.SwapDownAt | src/cdcl_solver.py:557-560 | the slot and its larger child are exchanged and both positions recorded; the defect moves to the child |
| Cdcl.CdclSolver.HeapInsert | src/cdcl_solver.py:497-503 | a present variable leaves the heap unchanged; otherwise it is added once; the heap stays ordered and indexed |
| Cdcl.CdclSolver.HeapPop | src/cdcl_solver.py:505-519 | None exactly for an empty heap; otherwise the old root, which has the largest activity, is removed from the contents and positions |
| Cdcl.CdclSolver.BumpActivity | src/cdcl_solver.py:477-489 | the variable's activity grows by the increment, and the heap stays ordered with the same contents |
| Cdcl.CdclSolver.DecayActivities | src/cdcl_solver.py:491-493 | the increment is divided by the decay factor and grows |
| Cdcl.CdclSolver.ChooseVariable | src/cdcl_solver.py:447-453 | an unassigned variable of largest activity among the unassigned, or None only when every variable is assigned |
| Cdcl.CdclSolver.MakeDecision | src/cdcl_solver.py:385-403 | either every variable is assigned and only the heap changes, drained by `_choose_variable` (lines 449-453), or a new level opens at the trail's end and the chosen variable is pushed True with no antecedent and one decision counted |
| Cdcl.CdclSolver.Decide | src/cdcl_solver.py:397-403 | the level boundary is `len(trail)`, the level grows by one, the variable becomes True on the trail, and the invariants hold |
| Cdcl.CdclSolver.UnassignFrom | src/cdcl_solver.py:369-375 | exactly the variables of the removed trail entries are unassigned and re-enter the heap |
| Cdcl.CdclSolver.Unassign | src/cdcl_solver.py:372-375 | one more variable is unassigned and put back in the heap |
| Cdcl.CdclSolver.Backtrack | src/cdcl_solver.py:355-383 | no-op at or above the current level; otherwise the trail is cut at the level's boundary, exactly the removed variables are unassigned and back in the heap, the boundaries are cut to `level`, and the propagation head is the trail length |
| Cdcl.CdclSolver.Restart | src/cdcl_solver.py:405-408 | one restart is counted; at level 0 nothing else changes; otherwise the trail is cut at the first boundary, exactly the removed variables are unassigned and back in the heap, no boundary is left and the propagation head is the trail length |
| Cdcl.CdclSolver.Classify | src/cdcl_solver.py:218-245 | the tests on one watching clause select exactly the action `WatchStep` prescribes |
| Cdcl.CdclSolver.Visit | src/cdcl_solver.py:215-257 | one watching clause: move the watch (both lists updated), report a falsified clause, push the implied literal at the current level with the clause as antecedent, or leave everything unchanged |
| Cdcl.CdclSolver.MoveWatchTo | src/cdcl_solver.py:241-245 | the two literals are exchanged and the clause index moves from the old literal's list to the new one's |
| Cdcl.CdclSolver.Imply | src/cdcl_solver.py:253-257 | the forced literal is assigned and pushed with its clause as antecedent, and one propagation is counted |
| Cdcl.CdclSolver.VisitWatchers | src/cdcl_solver.py:213-257 | a reported clause is falsified and has at least two literals; the trail only grows |
| Cdcl.CdclSolver.VisitAt | src/cdcl_solver.py:215-257 | one snapshot entry: a falsified clause is reported, or the rest of the snapshot stays on the live list |
| Cdcl.CdclSolver.Propagate | src/cdcl_solver.py:196-259 | every new trail entry is forced by a clause at the current level, values only grow, clauses are only permuted; a reported conflict is falsified; the head only grows and reaches the trail's end when there is no conflict |
| Cdcl.CdclSolver.UnitAt | src/cdcl_solver.py:180-191 | a clash is reported exactly for a unit clause whose variable has the opposite value; a unit clause on an unassigned variable sets that variable alone, appends exactly `(lit, 0, idx)` and counts one propagation; any other clause changes nothing |
| CdclDb.ScanUnits | src/cdcl_solver.py:179-188 | the values only grow and at most one entry is pushed per clause |
| CdclDb.ScanEntries | src/cdcl_solver.py:179-188 | every entry the scan pushes is at level 0 with as antecedent a unit clause holding exactly its literal, in increasing clause order |
| CdclDb.ScanNext | src/cdcl_solver.py:179-191 | a clause that does not clash extends the clean scan by one, binding and pushing it when it is a unit clause on an unassigned variable |
| CdclDb.ScanCleanPrefix | src/cdcl_solver.py:179-191 | a scan clean up to `n` is clean up to any earlier clause, and none of those clauses clashes |
| Cdcl.CdclSolver.ScanStep | src/cdcl_solver.py:179-191 | one loop round: a clash leaves the scan where it was, otherwise it advances by one clause |
| Cdcl.CdclSolver.ScanLoop | src/cdcl_solver.py:179-191 | the loop stops at the first clause that clashes; the values, trail and propagation count are those of the scan up to that clause, or up to the end |
| Cdcl.CdclSolver.AssignUnits | src/cdcl_solver.py:179-191 | a reported clause is the first that clashes and is falsified; otherwise the literal of every unit clause is true; either way the trail gains exactly the `(lit, 0, idx)` entries of the scan and counts one propagation each |
| Cdcl.CdclSolver.InitialPropagate | src/cdcl_solver.py:176-194 | a scan without a clash leaves its `(lit, 0, idx)` entries right after the old trail, ahead of what propagation adds; a scan with a clash reports the first clashing clause with exactly the scan's entries pushed; a conflict is a falsified clause; otherwise every unit clause holds and the trail is fully propagated |
| Cdcl.CdclSolver.CollectClause | src/cdcl_solver.py:283-294 | the loop over one clause computes exactly `Collect` |
| Cdcl.CdclSolver.ScanTrail | src/cdcl_solver.py:297-302 | entries over unseen variables are popped from the end; the new last entry, if any, is over a seen variable and is `p` |
| Cdcl.CdclSolver.BacktrackLevel | src/cdcl_solver.py:319-328 | 0 for a one-literal learned clause, else the largest level over all but the last literal |
| Cdcl.CdclSolver.BumpAll | src/cdcl_solver.py:330-334 | the activities become `Bumped` of the learned literals, and the heap stays valid |
| Cdcl.CdclSolver.Absorb | src/cdcl_solver.py:281-302 | one round is the pass over the clause followed by the trail scan, and the trail stays a prefix; on an empty trail `var` is the variable of the clause's last literal |
| Cdcl.CdclSolver.Learn | src/cdcl_solver.py:316-337 | the learned clause ends with `-p` (or 0), the backtrack level is computed from it, its variables are bumped, and one learned clause is counted |
| Cdcl.CdclSolver.AnalyzeConflict | src/cdcl_solver.py:261-337 | `([], 0)` at level 0; otherwise a non-empty clause ending in 0 or the negation of a trail literal, the backtrack level over all but its last literal, and its variables bumped; the trail is only shortened |
| Cdcl.CdclSolver.AddLearnedClause | src/cdcl_solver.py:339-353 | the empty clause is ignored; otherwise the clause is appended at index `len(clauses)`, recorded as learned with activity 0.0, and watched on its first two literals |
| Cdcl.CdclSolver.CollectPairs | src/cdcl_solver.py:413-417 | the loop builds exactly `ActivityPairs` |
| Cdcl.CdclSolver.CollectVictims | src/cdcl_solver.py:423-428 | the loop builds exactly `VictimsFrom` of the unkept part |
| Cdcl.CdclSolver.RemoveClauses | src/cdcl_solver.py:431-442 | exactly the victim clauses are emptied, each after leaving its watch lists |
| Cdcl.CdclSolver.RemoveClause | src/cdcl_solver.py:432-442 | one clause leaves the watch lists of its first two literals and is emptied |
| Cdcl.CdclSolver.ReduceLearnedClauses | src/cdcl_solver.py:410-445 | the clauses deleted are the non-antecedents after the top half by descending (activity, index); antecedent clauses are never emptied; the learned list loses exactly the deleted indices |
| Cdcl.CdclSolver.LoadClauses | src/cdcl_solver.py:73-82 | the clauses are copied and each is watched on its first two literals |
| Cdcl.CdclSolver.LoadHeap | src/cdcl_solver.py:85-88 | every variable `1..numVars` is in an ordered, indexed heap |
| Cdcl.CdclSolver.ResetSearch | src/cdcl_solver.py:91-103 | the trail, boundaries, values, level, learned list, head and counters are reset |
| Cdcl.CdclSolver.InitDataStructures | src/cdcl_solver.py:70-103 | the clauses are the input, every variable is in the heap, everything else is reset, and the solver invariants hold |
| Cdcl.CdclSolver.BuildModel | src/cdcl_solver.py:168-170 | the model has the variables `1..numVars`, each with its assigned value |
| Cdcl.CdclSolver.Search | src/cdcl_solver.py:128-174 | true exactly with a model covering every variable on a full trail; false only at level 0 with a falsified clause; an empty clause database stays empty |
| Cdcl.CdclSolver.Round | src/cdcl_solver.py:133-174 | one round: true exactly with a model covering every variable on a full trail, false only at level 0 with a falsified clause, an answer only when the loop stops, and an empty clause database stays empty; the conflict count grows by one exactly in a conflict round; a conflict-free round that does not stop opens a level with a positive decision at the trail's end, unless every variable is already assigned |
| Cdcl.CdclSolver.Resolve | src/cdcl_solver.py:145-162 | the invariants hold; when the analysis runs out of fuel the clauses, the learned list and the level are unchanged; otherwise the database gains one clause and one learned clause is counted |
| Cdcl.CdclSolver.Maintain | src/cdcl_solver.py:151-162 | the increment is decayed once, a non-empty learned clause adds one slot to the database, and when no reduction is due it is simply appended, and a restart to level 0 is counted exactly on every hundredth conflict |
| Cdcl.CdclSolver.Housekeep | src/cdcl_solver.py:157-162 | the database keeps its length and is unchanged when no reduction is due; a restart to level 0 is counted exactly on every hundredth conflict |
| Cdcl.CdclSolver.Walk | src/cdcl_solver.py:281-314 | the trail is only shortened from the end, every learned literal names a variable, and `p` is a literal of the old trail |
| Cdcl.CdclSolver.Solve | src/cdcl_solver.py:105-174 | true exactly with a model of the assigned values on a full trail; any false comes with a falsified clause at level 0 or, on a solver from `Unfiltered`, with an empty input clause; when no non-empty clause was kept the answer is never false |
| Generator.LitTotal | src/benchmark_generator.py:55-65 | under a total assignment a positive literal is true exactly when its variable is, its negation exactly when it is not |
| Generator.GeneratePigeonhole | src/benchmark_generator.py:35-67 | the three loops compute exactly the pigeonhole formula: placements, then exclusions hole by hole |
| Generator.PlacementLoop | src/benchmark_generator.py:52-57 | the first loop builds exactly one at-least-one clause per pigeon |
| Generator.HoleLoop | src/benchmark_generator.py:61-65 | the inner loops for one hole build exactly that hole's exclusions |
| Generator.PlacementsSpec | src/benchmark_generator.py:52-57 | there are `p` placement clauses, and clause `k` is pigeon `k + 1`'s hole variables in order |
| Generator.RowSpec | src/benchmark_generator.py:62-65 | a row holds exactly the exclusions of pigeon `i1` with each later pigeon |
| Generator.HoleSpec | src/benchmark_generator.py:61-65 | a hole's clauses are exactly the exclusions `[-x(i1,j), -x(i2,j)]` with `i1 < i2` |
| Generator.HoleCount | src/benchmark_generator.py:61-65 | a hole holds `p(p-1)/2` exclusions |
| Generator.ExclusionsSpec | src/benchmark_generator.py:60-65 | there are `h·p(p-1)/2` exclusions, exactly the pairs `i1 < i2` sharing a hole |
| Generator.PigeonholeCount | src/benchmark_generator.py:49-67 | `p + h·p(p-1)/2` clauses, the `p` placements first |
| Generator.PigeonVarRange | src/benchmark_generator.py:55 | a pigeon and hole in range name a variable in `1..p·h` |
| Generator.PigeonholeVars | src/benchmark_generator.py:55-64 | every literal is over a variable in `1..p·h` |
| Generator.PlacementsPositive | src/benchmark_generator.py:52-57 | the placement literals are all positive and in range |
| Generator.ExclusionsNegative | src/benchmark_generator.py:60-65 | the exclusion literals are all negative and in range |
| Generator.PlacedMeaning | src/benchmark_generator.py:51-57 | the placements hold exactly when every pigeon sits in some hole |
| Generator.ExcludedMeaning | src/benchmark_generator.py:59-65 | the exclusions hold exactly when no hole has two pigeons |
| Generator.PigeonholeMeaning | src/benchmark_generator.py:35-67 | under a total assignment the formula holds iff every pigeon is placed and no hole holds two |
| Generator.GenerateParity | src/benchmark_generator.py:70-121 | the appends compute exactly the parity formula as written |
| Generator.GroupsCount | src/benchmark_generator.py:106-115 | the chain has four clauses per step `2..n` |
| Generator.ParityCount | src/benchmark_generator.py:99-119 | there are `2 + 4(n-1) + 1` clauses, the first two tie aux `n+1` to `x1`, and the last is `[2n]` |
| Generator.GroupsVars | src/benchmark_generator.py:106-115 | the chain mentions only inputs `2..m` and auxiliaries `n+1..n+m` |
| Generator.ParityVars | src/benchmark_generator.py:99-119 | every variable lies in `1..2n` |
| Generator.GroupMeaning | src/benchmark_generator.py:112-115 | one group holds iff `curr` is the XOR of `prev` and `x` in XOR mode, or their XNOR in the as-written mode |
| Generator.XnorGroupMeaning | src/benchmark_generator.py:112-115 | the four clauses as written hold exactly when `curr == (prev == x)` |
| Generator.XorGroupMeaning | src/benchmark_generator.py:96-97 | the clauses the comment describes hold exactly when `curr == prev XOR x` |
| Generator.GroupsMeaning | src/benchmark_generator.py:106-115 | the chain holds exactly when every step relation holds |
| Generator.ParityMeaning | src/benchmark_generator.py:99-119 | the formula holds iff aux `n+1` equals `x1`, every step holds and aux `2n` is true |
| Generator.ChainValue | src/benchmark_generator.py:105-115 | along a holding chain aux `n+m` is the parity of `x1..xm` (XOR), or that parity compared with the parity of `m` (XNOR) |
| Generator.ParityAsWritten | src/benchmark_generator.py:112-119 | as written, every model's inputs have parity `n mod 2` |
| Generator.ParityCounterexample | src/benchmark_generator.py:112-115 | for `n = 2`, inputs `x1 = true`, `x2 = false` have odd parity, yet no assignment of the auxiliaries satisfies the formula |
| Generator.ParityXorMeaning | src/benchmark_generator.py:82-94 | with XOR steps every model has odd parity, and every odd-parity input with running-parity auxiliaries is a model |
| Dimacs.LStripSpec | src/dimacs_parser.py:23 | leading whitespace is cut: the rest is a suffix starting with a non-space, or empty |
| Dimacs.RStripSpec | src/dimacs_parser.py:23 | trailing whitespace is cut: the rest is a prefix ending in a non-space, or empty |
| Dimacs.Strip | src/dimacs_parser.py:23 | the stripped line neither starts nor ends with whitespace |
| Dimacs.StripSpec | src/dimacs_parser.py:23 | the stripped line is a middle slice with only whitespace cut off both ends |
| Dimacs.WordSpec | src/dimacs_parser.py:31 | a word is the leading run of non-space characters, ending at a space or the end |
| Dimacs.SplitSpec | src/dimacs_parser.py:31 | the words are non-empty and space-free, and there are none exactly for an all-whitespace line |
| Dimacs.SplitJoin | src/dimacs_parser.py:63 | splitting a space-joined list of non-empty words gives the words back |
| Dimacs.NatToString | src/dimacs_parser.py:61-63 | `str(n)` is a non-empty run of digits whose decimal value is `n` |
| Dimacs.IntToStringShape | src/dimacs_parser.py:63 | the text of an integer is one token, starting with `-` or a digit and ending with a digit |
| Dimacs.ParseIntToString | src/dimacs_parser.py:34-39 | `int(str(i)) == i` |
| Dimacs.ParseIntsSpec | src/dimacs_parser.py:39 | the literals are read exactly when every token is an integer, each then its token's value |
| Dimacs.FirstBadToken | src/dimacs_parser.py:39 | the error raised is `int()`'s message for the first token that is not an integer |
| Dimacs.ParseDimacs | src/dimacs_parser.py:6-48 | the loop returns exactly `Parse` of the lines: the counts and clauses, or the first error's message |
| Dimacs.ParseAppend | src/dimacs_parser.py:22-46 | reading a concatenation reads the first part, then the second from where the first stopped, or stops at the first error |
| Dimacs.ParseFromHead | src/dimacs_parser.py:22-46 | one line either raises or moves the state on to the rest of the file |
| Dimacs.Kept | src/dimacs_parser.py:26-27 | the kept lines are neither blank nor comments and all come from the file |
| Dimacs.ParseKept | src/dimacs_parser.py:23-27 | dropping blank and comment lines does not change the result |
| Dimacs.ParseFromNonEmpty | src/dimacs_parser.py:43-46 | a successful read only adds non-empty clauses |
| Dimacs.ParseNonEmpty | src/dimacs_parser.py:44-46 | every returned clause is non-empty |
| Dimacs.NoHeaderKeepsCounts | src/dimacs_parser.py:38-46 | lines without a problem line keep both counts and only append clauses |
| Dimacs.ParseNoHeader | src/dimacs_parser.py:17-18 | a file without a problem line declares 0 variables and 0 clauses |
| Dimacs.HeaderWins | src/dimacs_parser.py:30-36 | the last problem line splits into four tokens with `cnf` second, and its last two tokens are the counts returned |
| Dimacs.BadHeader | src/dimacs_parser.py:31-33 | a problem line without four tokens or `cnf` second raises "Invalid problem line" with the stripped line |
| Dimacs.MissingTerminator | src/dimacs_parser.py:39-41 | a clause line whose last integer is not 0 raises "Clause must end with 0" with the stripped line |
| Dimacs.BadLiteral | src/dimacs_parser.py:39 | a clause line with a non-integer token raises `int()`'s error for the first such token |
| Dimacs.ClauseLinesSnoc | src/dimacs_parser.py:62-63 | writing one more clause adds one more line at the end |
| Dimacs.WriteDimacs | src/dimacs_parser.py:51-63 | the loop writes exactly the header `p cnf n len(clauses)` and one line per clause ending in ` 0` |
| Dimacs.HeaderLineWords | src/dimacs_parser.py:61 | a written header strips to `p cnf N M`, which splits into those four words |
| Dimacs.HeaderStep | src/dimacs_parser.py:30-36 | reading a written header sets both counts to the values written |
| Dimacs.ClauseLineStrip | src/dimacs_parser.py:63 | a written clause line strips to its words joined by spaces |
| Dimacs.ClauseWordsParse | src/dimacs_parser.py:39 | the words of a written clause line read back as the clause followed by 0 |
| Dimacs.ClauseStep | src/dimacs_parser.py:39-46 | reading a written clause line appends the clause unless it is empty |
| Dimacs.ParseClauseLines | src/dimacs_parser.py:22-46 | written clause lines are read back in order, dropping only the empty clauses |
| Dimacs.ParseEchoesHeader | src/dimacs_parser.py:35-48 | the declared clause count is echoed whatever the number of clause lines |
| Dimacs.WriteParse | src/dimacs_parser.py:51-63 | reading what was written returns the variable count, the clause count and the non-empty clauses in order |

## Left out

- Wall-clock time is not modelled. The CDCL time limit becomes a `fuel` bound on the main loop, and running out gives the `None` outcome. The `'time'` entry of both solvers' statistics is left out.
- File opening and reading, and the writer's file output, are left out. The parser takes the file's lines (each with its newline, as Python's iteration gives them). The writer returns the lines it would write. Newline translation is not modelled.
- Floating-point activity arithmetic is not modelled. Activities, the increment and the decay factor are exact `real` numbers. The 1e100 rescale in `_bump_activity` is left out.
- The DPLL `occurrence_lists`, built in `_init_data_structures` and never read, are not modelled. The unused CDCL `seen` field is not modelled either.
- Python's set iteration order is a nondeterministic choice. This applies to DPLL `_choose_variable`, `_pure_literal_eliminate` and `_reduce_learned_clauses`' removal loop. Every contract holds for every order.
- Dpll.DpllSolver.Solve: it requires that no clause holds the literal 0. That literal is its own complement, and the shared semantics give it no meaning. The source does not exclude it.
- Dpll.DpllSolver.Dpll: makes no claim about the growth of `num_decisions` and `max_depth`.
- Dpll.DpllSolver.constructor: the variable count is kept but otherwise unused, as in the source. Clauses are stored as given; the `list(clause)` copy has no counterpart because values are immutable.
- Cdcl.CdclSolver.Solve: does not prove that a true answer's model satisfies the clauses, nor that a false answer means unsatisfiable. A proof of either would have to account for these behaviours of the code as written:
  - The analysis pops trail entries without unassigning them.
  - It can leave the propagation head past the end of the trail.
  - The asserting literal is never pushed after learning.
  - A falsified one-literal watched clause is skipped silently.
- Cdcl.CdclSolver.Solve: requires no literal 0, as for DPLL. It also requires empty watch lists on entry, because `_init_data_structures` never resets `watch_list` or `clause_activity`.
- Cdcl.CdclSolver.Solve: requires every literal's variable to be at most `numVars` (`Bounded`), and so do `InitDataStructures` and `LoadClauses`. The source does not check this, and the command-line driver, which is not part of this model, passes the header's count unchecked. With a literal above the count the source either answers without reading it (`CDCLSolver(1, [[1, 2]])` answers satisfiable) or raises IndexError when `_lit_value` reads it (`CDCLSolver(1, [[-1, 2]])`, through line 231). Neither outcome is modelled.
- Cdcl.CdclSolver.Solve: for a solver from the filtering constructor whose clauses were all empty, such as `CDCLSolver(1, [[]])`, it proves that the answer is never "unsatisfiable". It does not prove that the answer is "satisfiable" once the fuel exceeds the variable count, as the source's run does.
- Cdcl.CdclSolver.Search: makes no claim about termination or completeness, and does not state the `num_conflicts` count or the restart schedule. It states the answers' shape and the invariants kept.
- Cdcl.CdclSolver.Resolve: does not state the learned clause or the backtrack level; those are stated by `AnalyzeConflict`.
- Cdcl.CdclSolver.Maintain: after a reduction the contract states only the database length; which clauses go is stated by `ReduceLearnedClauses`.
- Cdcl.CdclSolver.Round: the invariants do not include that every assigned variable is on the trail, so a conflict-free round that does not stop is stated to decide or to find every variable assigned; in the source only the first can happen.
- Cdcl.CdclSolver.AnalyzeConflict: the `while True` loop is bounded by `fuel`, and `None` means the fuel ran out. As written the loop can spin forever: the antecedent of the pivot contains the pivot's own literal, which marks it seen again. Termination and first-UIP correctness are not claimed.
- Cdcl.CdclSolver.Walk: states only that the trail stays a prefix and that the learned literals are in range. What they are is stated by `Absorb` and `AnalyzeConflict`.
- Cdcl.CdclSolver.BumpActivity: no rescale above 1e100, as said above.
- Cdcl.CdclSolver.constructor: the variable count is a `nat`. A negative count in the source gives empty lists and is not modelled.
- Cdcl.CdclSolver.MakeDecision: decisions are always positive, as written.
- Generator.GenerateParity: `num_vars` is a `nat`. For 0 the source writes the clauses `[-1, 1]`, `[1, -1]` and `[0]`; the model computes the same clauses, but the count and meaning lemmas require `n >= 1`. The command-line driver, which declares only `2n-1` variables, is not part of this model.
- Generator.GeneratePigeonhole: negative counts are not modelled (`nat` parameters). `generate_random_3sat` and the `__main__` driver use randomness and file output and are not part of this model.
- Dimacs.ParseInt: accepts ASCII digits with single underscores between digits, and an optional sign. The non-ASCII decimal digits Python's `int()` also accepts are not modelled.
- Dimacs.IntError: always quotes the token with `'…'`. It does not reproduce `repr`'s choice of quotes for a token that contains `'`.
- Dimacs.StepHeader: as in the source, only the second token is checked. A line such as `pxx cnf 1 1` is a valid problem line.

## Findings

| source | as written | input that shows it | evidently intended | confidence | as-written member | corrected member |
|---|---|---|---|---|---|---|
| src/cdcl_solver.py:30 | the constructor drops empty clauses from the input, so the empty-clause check at lines 119-120 never fires | `CDCLSolver(1, [[]])`: the formula is unsatisfiable, but the only clause is dropped and the solver answers satisfiable | an empty input clause makes `solve` answer unsatisfiable, as lines 119-120 and the DPLL solver (src/dpll_solver.py:100-102) do | not executed; high that the check is dead, medium that it was meant to see the clauses | Cdcl.CdclSolver.constructor, Cdcl.EmptyClauseDropped | Cdcl.CdclSolver.Unfiltered, Cdcl.CdclSolver.Solve |
| src/benchmark_generator.py:112-115 | each four-clause group excludes the even-parity triples, so it forces `curr == (prev == x_i)` (XNOR); for even `n` the formula demands even parity | `n = 2`, `x1 = true`, `x2 = false`: odd parity, yet no choice of the auxiliaries satisfies the formula | `curr == prev XOR x_i`, as the comment at lines 96-97 and the docstring say, so the formula holds exactly for odd parity | not executed; high | Generator.ParityCounterexample | Generator.ParityXorMeaning |

In the CDCL model the default constructor drops empty clauses, as
src/cdcl_solver.py:30 does, by `Cnf.NonEmpty`. Its contract shows that the
empty-clause test of `solve` then has nothing to find, and
`Cdcl.EmptyClauseDropped` shows what the drop does to `[[]]`. On such a
solver `Cdcl.CdclSolver.Solve` proves that a formula of only empty clauses is
never answered "unsatisfiable". The corrected construction is
`Cdcl.CdclSolver.Unfiltered`, which keeps every clause; from it
`Cdcl.CdclSolver.Solve` proves that an empty input clause gives the
unsatisfiable answer. For parity, the
`Generator.GenerateParity` method models the code as written, and
`Generator.ParityXor` is the corrected formula.
