/**
 * The DPLL solver of src/dpll_solver.py: recursive backtracking over a clause
 * list that is simplified in place after every assignment, with unit
 * propagation to a fixpoint and pure-literal elimination.
 *
 * The clause-list computations (`_simplify_with_assignment`'s filter,
 * `_find_unit_clauses`, `_find_pure_literals`, `_all_clauses_satisfied`,
 * `_has_empty_clause`) are functions; the search itself is the class
 * `DpllSolver`, whose methods update `clauses`, `assignment` and the counters.
 *
 * The central invariant is `clauses == Reduce(originalClauses, assignment)`:
 * the working clause list is exactly the original clauses not yet satisfied,
 * each with its falsified literals removed, in the original order.
 */
module Dpll {
  import opened Wrappers
  import opened Cnf

  /** The literal that assigning `value` to `v` makes true. */
  function TrueLit(v: int, value: bool): int {
    if value then v else -v
  }

  /** `[l for l in clause if l != x]` */
  function RemoveLit(c: Clause, x: int): (r: Clause)
    ensures forall l :: l in r <==> l in c && l != x
    ensures |r| <= |c|
  {
    if c == [] then [] else (if c[0] == x then [] else [c[0]]) + RemoveLit(c[1..], x)
  }

  /** What `_simplify_with_assignment` does to one clause: drop it, strip it, or keep it. */
  function SimplifyClause(c: Clause, lit: int): Formula {
    if lit in c then []
    else if -lit in c then [RemoveLit(c, -lit)]
    else [c]
  }

  /** The new clause list `_simplify_with_assignment(v, value)` builds. */
  function Simplify(clauses: Formula, v: int, value: bool): (r: Formula)
    ensures |r| <= |clauses|
    ensures forall c :: c in r ==> TrueLit(v, value) !in c && -TrueLit(v, value) !in c
  {
    if clauses == [] then []
    else SimplifyClause(clauses[0], TrueLit(v, value)) + Simplify(clauses[1..], v, value)
  }

  /** Together with SimplifyClause, this says Simplify treats each clause on its own and keeps their order. */
  lemma {:induction false} SimplifyAppend(x: Formula, y: Formula, v: int, value: bool)
    ensures Simplify(x + y, v, value) == Simplify(x, v, value) + Simplify(y, v, value)
  {
    if x == [] {
      assert x + y == y;
    } else {
      assert (x + y)[0] == x[0];
      assert (x + y)[1..] == x[1..] + y;
      SimplifyAppend(x[1..], y, v, value);
    }
  }

  /** The falsified literals of `c` removed. */
  function RemoveFalse(a: Assignment, c: Clause): (r: Clause)
    ensures forall l :: l in r <==> l in c && !LitFalse(a, l)
  {
    if c == [] then [] else (if LitFalse(a, c[0]) then [] else [c[0]]) + RemoveFalse(a, c[1..])
  }

  /**
   * The reference definition of the working clause list: the clauses of `f`
   * that `a` does not satisfy, in order, each without its falsified literals.
   */
  function Reduce(f: Formula, a: Assignment): (r: Formula)
    ensures |r| <= |f|
  {
    if f == [] then []
    else (if ClauseSat(a, f[0]) then [] else [RemoveFalse(a, f[0])]) + Reduce(f[1..], a)
  }

  /** Every unsatisfied original clause has its reduced form in the working list. */
  lemma {:induction false} ReduceHas(f: Formula, a: Assignment, c: Clause)
    requires c in f && !ClauseSat(a, c)
    ensures RemoveFalse(a, c) in Reduce(f, a)
  {
    var head := if ClauseSat(a, f[0]) then [] else [RemoveFalse(a, f[0])];
    assert Reduce(f, a) == head + Reduce(f[1..], a);
    if f[0] != c {
      assert c in f[1..];
      ReduceHas(f[1..], a, c);
    }
  }

  /** Every working clause is the reduced form of an unsatisfied original clause. */
  lemma {:induction false} ReduceFrom(f: Formula, a: Assignment, x: Clause)
    requires x in Reduce(f, a)
    ensures exists c :: c in f && !ClauseSat(a, c) && x == RemoveFalse(a, c)
  {
    var head := if ClauseSat(a, f[0]) then [] else [RemoveFalse(a, f[0])];
    assert Reduce(f, a) == head + Reduce(f[1..], a);
    if x in head {
      assert f[0] in f;
    } else {
      ReduceFrom(f[1..], a, x);
      var c :| c in f[1..] && !ClauseSat(a, c) && x == RemoveFalse(a, c);
      assert c in f;
    }
  }

  /** The variable of a unit clause of the reduced formula is unassigned. */
  lemma UnitUnassigned(f: Formula, a: Assignment, l: int)
    requires [l] in Reduce(f, a)
    ensures Abs(l) !in a
  {
    assert l in [l];
    ReduceVars(f, a);
  }

  /** Every literal of `ls` is true under `a`. */
  predicate AllTrue(ls: seq<int>, a: Assignment) {
    forall l :: l in ls ==> LitTrue(a, l)
  }

  /** Visiting one more unit literal that ends up true keeps every visited literal true. */
  lemma AllTrueSnoc(units: seq<int>, i: nat, a: Assignment, b: Assignment)
    requires i < |units| && AllTrue(units[..i], a) && Extends(b, a) && LitTrue(b, units[i])
    ensures AllTrue(units[..i + 1], b)
  {
    assert units[..i + 1] == units[..i] + [units[i]];
  }

  /** The formula holds a unit clause and the unit clause of its complement, as `(x1)(-x1)` does. */
  ghost predicate ComplementaryUnits(f: Formula) {
    exists l :: [l] in f && [-l] in f
  }

  /** A unit clause of the reduced formula holds a literal of the original formula, so never 0. */
  lemma ReduceUnitNonZero(f: Formula, a: Assignment, l: int)
    requires NoZero(f) && [l] in Reduce(f, a)
    ensures l != 0
  {
    ReduceFrom(f, a, [l]);
    var c :| c in f && !ClauseSat(a, c) && [l] == RemoveFalse(a, c);
    assert l in RemoveFalse(a, c);
  }

  /** `_find_unit_clauses`: the literal of every one-literal clause, in order. */
  function UnitLiterals(clauses: Formula): (r: seq<int>)
    ensures forall l :: l in r <==> [l] in clauses
  {
    if clauses == [] then []
    else
      assert |clauses[0]| == 1 ==> clauses[0] == [clauses[0][0]];
      assert forall c :: c in clauses <==> c == clauses[0] || c in clauses[1..];
      (if |clauses[0]| == 1 then [clauses[0][0]] else []) + UnitLiterals(clauses[1..])
  }

  /** Variables with a positive occurrence (`counts['pos'] > 0`). */
  function PosVars(clauses: Formula): (r: set<nat>)
    ensures 0 !in r
  {
    set c, l | c in clauses && l in c && l > 0 :: Abs(l)
  }

  /** Variables with a non-positive occurrence (`counts['neg'] > 0`). */
  function NegVars(clauses: Formula): set<nat> {
    set c, l | c in clauses && l in c && l <= 0 :: Abs(l)
  }

  lemma PosVarsLits(clauses: Formula, v: int)
    ensures v > 0 ==> (v in PosVars(clauses) <==> v in Lits(clauses))
  {
    if v > 0 && v in Lits(clauses) {
      var c, l :| c in clauses && l in c && l == v;
      assert Abs(l) in PosVars(clauses);
    }
  }

  lemma NegVarsLits(clauses: Formula, v: int)
    requires v >= 0
    ensures v > 0 ==> (v in NegVars(clauses) <==> -v in Lits(clauses))
    ensures v == 0 ==> (v in NegVars(clauses) <==> 0 in Lits(clauses))
  {
    if -v in Lits(clauses) {
      var c, l :| c in clauses && l in c && l == -v;
      assert Abs(l) in NegVars(clauses);
    }
    if v in NegVars(clauses) {
      var c, l :| c in clauses && l in c && l <= 0 && v == Abs(l);
      assert l == -v;
    }
  }

  /** The second loop of `_find_pure_literals`, over the two occurrence sets. */
  function PureFromCounts(pos: set<nat>, neg: set<nat>, a: Assignment): set<int> {
    (set v | v in pos && v !in neg && v !in a :: v as int) + (set v | v in neg && v !in pos && v !in a :: -(v as int))
  }

  lemma PureFromCountsHas(pos: set<nat>, neg: set<nat>, a: Assignment, l: int)
    requires 0 !in pos
    ensures l > 0 ==> (l in PureFromCounts(pos, neg, a) <==> l in pos && l !in neg && l !in a)
    ensures l < 0 ==> (l in PureFromCounts(pos, neg, a) <==> -l in neg && -l !in pos && -l !in a)
    ensures l == 0 ==> (l in PureFromCounts(pos, neg, a) <==> 0 in neg && 0 !in pos && 0 !in a)
  {
    var r := PureFromCounts(pos, neg, a);
    if l <= 0 && -l in neg && -l !in pos && -l !in a {
      var v: nat := -l;
      assert l == -(v as int);
      assert l in r;
    }
    if l > 0 && l in pos && l !in neg && l !in a {
      var v: nat := l;
      assert l in r;
    }
  }

  /** `_find_pure_literals`: per unassigned variable, `v` if it occurs only positively, `-v` if only negatively. */
  function PureLiterals(clauses: Formula, a: Assignment): (r: set<int>)
    ensures forall l {:trigger l in r} :: l != 0 ==> (l in r <==> l in Lits(clauses) && -l !in Lits(clauses) && Abs(l) !in a)
    ensures 0 in r ==> 0 in Lits(clauses)
  {
    var r := PureFromCounts(PosVars(clauses), NegVars(clauses), a);
    assert forall l {:trigger l in r} :: l != 0 ==> (l in r <==> l in Lits(clauses) && -l !in Lits(clauses) && Abs(l) !in a) by {
      forall l | l != 0 ensures l in r <==> l in Lits(clauses) && -l !in Lits(clauses) && Abs(l) !in a {
        PureFromCountsHas(PosVars(clauses), NegVars(clauses), a, l);
        PosVarsLits(clauses, Abs(l));
        NegVarsLits(clauses, Abs(l));
      }
    }
    assert 0 in r ==> 0 in Lits(clauses) by {
      PureFromCountsHas(PosVars(clauses), NegVars(clauses), a, 0);
      NegVarsLits(clauses, 0);
    }
    r
  }

  /** A nonzero literal: what the pure-literal set of a zero-free formula holds. */
  type PureLit = l: int | l != 0 witness 1

  /** Some assignment extending `a` satisfies `f`. */
  ghost predicate Satisfiable(f: Formula, a: Assignment) {
    exists b :: Extends(b, a) && Sat(b, f)
  }

  /** Every assignment extending `from` that satisfies `f` also extends `to`: nothing was lost. */
  ghost predicate SolutionsKept(f: Formula, from: Assignment, to: Assignment) {
    forall b :: Extends(b, from) && Sat(b, f) ==> Extends(b, to)
  }

  /** One clause under one new assignment: satisfied now iff it was, or it holds the new true literal. */
  lemma ClauseStep(c: Clause, a: Assignment, v: int, value: bool)
    requires v > 0 && v !in a
    ensures ClauseSat(a[v := value], c) <==> ClauseSat(a, c) || TrueLit(v, value) in c
  {
    var a' := a[v := value];
    var lit := TrueLit(v, value);
    if ClauseSat(a', c) {
      var l :| l in c && LitTrue(a', l);
      assert Abs(l) != v ==> LitTrue(a, l);
    }
    if ClauseSat(a, c) {
      var l :| l in c && LitTrue(a, l);
      assert LitTrue(a', l);
    }
    if lit in c {
      assert LitTrue(a', lit);
    }
  }

  /** Falsified literals of the extended assignment: those of before, plus the new false literal. */
  lemma {:induction false} RemoveStep(c: Clause, a: Assignment, v: int, value: bool)
    requires v > 0 && v !in a
    ensures RemoveLit(RemoveFalse(a, c), -TrueLit(v, value)) == RemoveFalse(a[v := value], c)
  {
    if c != [] {
      var a' := a[v := value];
      var x := c[0];
      var neg := -TrueLit(v, value);
      var tail := RemoveFalse(a, c[1..]);
      RemoveStep(c[1..], a, v, value);
      var rest := RemoveFalse(a', c[1..]);
      if LitFalse(a, x) {
        assert RemoveFalse(a, c) == tail;
        assert LitFalse(a', x);
        assert RemoveFalse(a', c) == rest;
      } else {
        assert RemoveFalse(a, c) == [x] + tail;
        assert ([x] + tail)[1..] == tail;
        if x == neg {
          assert LitFalse(a', x);
          assert RemoveFalse(a', c) == rest;
          assert RemoveLit([x] + tail, neg) == RemoveLit(tail, neg);
        } else {
          assert !LitFalse(a', x);
          assert RemoveFalse(a', c) == [x] + rest;
          assert RemoveLit([x] + tail, neg) == [x] + RemoveLit(tail, neg);
        }
      }
    }
  }

  lemma {:induction false} RemoveAbsent(c: Clause, x: int)
    requires x !in c
    ensures RemoveLit(c, x) == c
  {
    if c != [] {
      RemoveAbsent(c[1..], x);
    }
  }

  /** Simplify on a one-clause list is SimplifyClause. */
  lemma SimplifySingle(c: Clause, v: int, value: bool)
    ensures Simplify([c], v, value) == SimplifyClause(c, TrueLit(v, value))
  {
    assert [c][1..] == [];
  }

  /** An unsatisfied clause holding the new true literal leaves the working list. */
  lemma ReduceClauseDropped(c: Clause, a: Assignment, v: int, value: bool)
    requires v > 0 && v !in a && TrueLit(v, value) in c
    ensures Simplify([RemoveFalse(a, c)], v, value) == []
  {
    var lit := TrueLit(v, value);
    assert !LitFalse(a, lit);
    assert lit in RemoveFalse(a, c);
    SimplifySingle(RemoveFalse(a, c), v, value);
  }

  /** An unsatisfied clause without the new true literal loses the new false literal. */
  lemma ReduceClauseKept(c: Clause, a: Assignment, v: int, value: bool)
    requires v > 0 && v !in a && TrueLit(v, value) !in c
    ensures Simplify([RemoveFalse(a, c)], v, value) == [RemoveFalse(a[v := value], c)]
  {
    var rc := RemoveFalse(a, c);
    assert TrueLit(v, value) !in rc;
    SimplifyUntrue(rc, v, value);
    RemoveStep(c, a, v, value);
  }

  /** A clause without the true literal is only stripped of the false one. */
  lemma SimplifyUntrue(c: Clause, v: int, value: bool)
    requires TrueLit(v, value) !in c
    ensures Simplify([c], v, value) == [RemoveLit(c, -TrueLit(v, value))]
  {
    SimplifySingle(c, v, value);
    if -TrueLit(v, value) !in c {
      RemoveAbsent(c, -TrueLit(v, value));
    }
  }

  /** The working list changes clause by clause as Simplify prescribes. */
  lemma ReduceClauseStep(c: Clause, a: Assignment, v: int, value: bool)
    requires v > 0 && v !in a
    ensures Simplify(if ClauseSat(a, c) then [] else [RemoveFalse(a, c)], v, value)
         == (if ClauseSat(a[v := value], c) then [] else [RemoveFalse(a[v := value], c)])
  {
    ClauseStep(c, a, v, value);
    if !ClauseSat(a, c) {
      if TrueLit(v, value) in c {
        ReduceClauseDropped(c, a, v, value);
      } else {
        ReduceClauseKept(c, a, v, value);
      }
    }
  }

  /**
   * Simplifying the working list with one new assignment gives the working
   * list of the extended assignment: the invariant survives every
   * `assignment[var] = value` that is followed by `_simplify_with_assignment`.
   */
  lemma {:induction false} SimplifyReduce(f: Formula, a: Assignment, v: int, value: bool)
    requires v > 0 && v !in a
    ensures Simplify(Reduce(f, a), v, value) == Reduce(f, a[v := value])
  {
    if f != [] {
      var head := if ClauseSat(a, f[0]) then [] else [RemoveFalse(a, f[0])];
      assert Reduce(f, a) == head + Reduce(f[1..], a);
      SimplifyAppend(head, Reduce(f[1..], a), v, value);
      SimplifyReduce(f[1..], a, v, value);
      ReduceClauseStep(f[0], a, v, value);
    }
  }

  /** A one-literal working clause forces its literal in every solution. */
  lemma UnitForced(f: Formula, a: Assignment, l: int, b: Assignment)
    requires [l] in Reduce(f, a) && Extends(b, a) && Sat(b, f)
    ensures LitTrue(b, l)
  {
    ReduceFrom(f, a, [l]);
    var c :| c in f && !ClauseSat(a, c) && [l] == RemoveFalse(a, c);
    var x :| x in c && LitTrue(b, x);
    assert !LitFalse(a, x);
    assert x in RemoveFalse(a, c);
  }

  /** An empty working clause (all literals of an original clause false) rules out every extension. */
  lemma EmptyClauseUnsat(f: Formula, a: Assignment)
    requires [] in Reduce(f, a)
    ensures !Satisfiable(f, a)
  {
    ReduceFrom(f, a, []);
    var c :| c in f && !ClauseSat(a, c) && [] == RemoveFalse(a, c);
    forall b | Extends(b, a) ensures !ClauseSat(b, c) {
      forall x | x in c ensures !LitTrue(b, x) {
        assert LitFalse(a, x);
      }
    }
  }

  /** An empty working list means every original clause is already satisfied. */
  lemma EmptyReduceSat(f: Formula, a: Assignment)
    requires Reduce(f, a) == []
    ensures Sat(a, f)
  {
    forall c | c in f ensures ClauseSat(a, c) {
      if !ClauseSat(a, c) {
        ReduceHas(f, a, c);
      }
    }
  }

  /** The variables left in the working list are original variables and unassigned. */
  lemma ReduceVars(f: Formula, a: Assignment)
    ensures Vars(Reduce(f, a)) <= Vars(f)
    ensures forall v :: v in Vars(Reduce(f, a)) ==> v !in a
  {
    forall v | v in Vars(Reduce(f, a)) ensures v in Vars(f) && v !in a {
      var r, l :| r in Reduce(f, a) && l in r && v == Abs(l);
      ReduceFrom(f, a, r);
      var c :| c in f && !ClauseSat(a, c) && r == RemoveFalse(a, c);
      assert l in c && !LitFalse(a, l);
      assert !LitTrue(a, l);
    }
  }

  /** Literals of the working list are literals of the formula. */
  lemma ReduceLits(f: Formula, a: Assignment)
    ensures Lits(Reduce(f, a)) <= Lits(f)
  {
    forall l | l in Lits(Reduce(f, a)) ensures l in Lits(f) {
      var r, x :| r in Reduce(f, a) && x in r && x == l;
      ReduceFrom(f, a, r);
      var c :| c in f && !ClauseSat(a, c) && r == RemoveFalse(a, c);
      assert l in c;
    }
  }

  /** Literals only disappear from the working list as the assignment grows. */
  lemma ReduceLitsShrink(f: Formula, a1: Assignment, a2: Assignment)
    requires Extends(a2, a1)
    ensures Lits(Reduce(f, a2)) <= Lits(Reduce(f, a1))
  {
    forall l | l in Lits(Reduce(f, a2)) ensures l in Lits(Reduce(f, a1)) {
      var r, x :| r in Reduce(f, a2) && x in r && x == l;
      ReduceFrom(f, a2, r);
      var c :| c in f && !ClauseSat(a2, c) && r == RemoveFalse(a2, c);
      ClauseUnsatAnti(a1, a2, c);
      ReduceHas(f, a1, c);
      assert l in RemoveFalse(a1, c);
    }
  }

  /** Every literal of a member clause is a literal of the formula. */
  lemma LitsOfMember(f: Formula, r: Clause)
    requires r in f
    ensures forall x :: x in r ==> x in Lits(f)
  {
  }

  /** A literal whose complement is gone from the working list is absent from every unsatisfied clause. */
  lemma PureAbsent(f: Formula, a: Assignment, l: int, c: Clause)
    requires c in f && !ClauseSat(a, c) && Abs(l) !in a && -l !in Lits(Reduce(f, a))
    ensures -l !in c
  {
    ReduceHas(f, a, c);
    LitsOfMember(Reduce(f, a), RemoveFalse(a, c));
  }

  /** A pure (or absent) literal can be made true without losing satisfiability. */
  lemma PurePreservesSat(f: Formula, a: Assignment, l: int)
    requires l != 0 && Abs(l) !in a && -l !in Lits(Reduce(f, a))
    requires Satisfiable(f, a)
    ensures Satisfiable(f, a[Abs(l) := l > 0])
  {
    var v := Abs(l);
    var b :| Extends(b, a) && Sat(b, f);
    var b' := b[v := l > 0];
    forall c | c in f ensures ClauseSat(b', c) {
      if !ClauseSat(a, c) && l !in c {
        PureAbsent(f, a, l, c);
      }
      PureClause(a, b, l, c);
    }
    ExtendsOverride(b, a, v, l > 0);
  }

  /**
   * Making `l` true in a solution `b` of the clause keeps it satisfied when
   * the clause was already satisfied by `a`, contains `l`, or lacks `-l`.
   */
  lemma PureClause(a: Assignment, b: Assignment, l: int, c: Clause)
    requires l != 0 && Extends(b, a) && Abs(l) !in a && ClauseSat(b, c)
    requires ClauseSat(a, c) || l in c || -l !in c
    ensures ClauseSat(b[Abs(l) := l > 0], c)
  {
    var b' := b[Abs(l) := l > 0];
    if ClauseSat(a, c) {
      var x :| x in c && LitTrue(a, x);
      assert LitTrue(b', x);
    } else if l in c {
      assert LitTrue(b', l);
    } else {
      var x :| x in c && LitTrue(b, x);
      assert LitTrue(b', x);
    }
  }

  /** Overriding an unassigned variable of `a` in an extension of `a` gives an extension of `a[v := value]`. */
  lemma ExtendsOverride(b: Assignment, a: Assignment, v: nat, value: bool)
    requires Extends(b, a) && v !in a
    ensures Extends(b[v := value], a[v := value])
  {
  }

  /** If neither value of an unassigned variable leads to a solution, none exists. */
  lemma SplitOnVar(f: Formula, a: Assignment, v: nat)
    requires v !in a
    requires !Satisfiable(f, a[v := true]) && !Satisfiable(f, a[v := false])
    ensures !Satisfiable(f, a)
  {
    forall b | Extends(b, a) ensures !Sat(b, f) {
      if v in b {
        assert Extends(b, a[v := b[v]]);
      } else {
        assert Extends(b[v := true], a[v := true]);
        assert Extends(b[v := true], b);
        UnsatAnti(b, b[v := true], f);
      }
    }
  }

  /** A working list with a clause and no empty clause still mentions a variable. */
  lemma NonEmptyHasVar(clauses: Formula)
    requires clauses != [] && [] !in clauses
    ensures Vars(clauses) != {}
  {
    var c := clauses[0];
    assert c != [] && c in clauses && c[0] in c;
    assert Abs(c[0]) in Vars(clauses);
  }

  /** Removing one member of a finite set lowers its size by one. */
  lemma CardStep(s: set<nat>, k: set<nat>, v: nat)
    requires v in s && v !in k
    ensures |s - (k + {v})| == |s - k| - 1
  {
    assert s - k == (s - (k + {v})) + {v};
  }

  lemma CardShrink(s: set<nat>, k1: set<nat>, k2: set<nat>)
    requires k1 <= k2
    ensures |s - k2| <= |s - k1|
  {
    SubsetCard(s - k2, s - k1);
  }

  lemma SubsetCard(x: set<nat>, y: set<nat>)
    requires x <= y
    ensures |x| <= |y|
  {
    assert |y| == |x| + |y - x|;
  }

  /** Statistics `solve` reports (the wall-clock 'time' entry is not modelled). */
  datatype Stats = Stats(decisions: nat, propagations: nat, maxDepth: nat)

  class DpllSolver {
    const numVars: int
    const originalClauses: Formula
    var clauses: Formula
    var assignment: Assignment
    var numDecisions: nat
    var numPropagations: nat
    var maxDepth: nat

    /** The working clause list is the reduced original formula. */
    ghost predicate Valid()
      reads this`clauses, this`assignment
    {
      NoZero(originalClauses) && clauses == Reduce(originalClauses, assignment)
    }

    /** Original variables still unassigned: the measure the search decreases. */
    ghost function Unassigned(): nat
      reads this`assignment
    {
      |Vars(originalClauses) - assignment.Keys|
    }

    constructor (numVars: int, clauses: Formula)
      requires NoZero(clauses)
      ensures this.numVars == numVars && originalClauses == clauses
      ensures this.clauses == [] && assignment == map[]
      ensures numDecisions == 0 && numPropagations == 0 && maxDepth == 0
    {
      this.numVars := numVars;
      originalClauses := clauses;
      this.clauses := [];
      assignment := map[];
      numDecisions, numPropagations, maxDepth := 0, 0, 0;
    }

    method InitDataStructures()
      requires NoZero(originalClauses)
      modifies this`clauses, this`assignment, this`numDecisions, this`numPropagations,
               this`maxDepth
      ensures Valid()
      ensures clauses == originalClauses && assignment == map[]
      ensures numDecisions == 0 && numPropagations == 0 && maxDepth == 0
    {
      clauses := originalClauses;
      assignment := map[];
      numDecisions, numPropagations, maxDepth := 0, 0, 0;
      NoneAssignedReduce(originalClauses);
    }

    /** `solve` without timing: runs `_dpll(0)` and returns the verdict, a copy of the assignment and the counters. */
    method Solve() returns (sat: bool, model: Option<Assignment>, stats: Stats)
      requires NoZero(originalClauses)
      modifies this`clauses, this`assignment, this`numDecisions, this`numPropagations,
               this`maxDepth
      ensures sat <==> exists a :: Sat(a, originalClauses)
      ensures sat ==> model.Some? && Sat(model.value, originalClauses)
      ensures !sat ==> model.None?
      ensures stats == Stats(numDecisions, numPropagations, maxDepth)
    {
      InitDataStructures();
      var result := Dpll(0);
      stats := Stats(numDecisions, numPropagations, maxDepth);
      if result {
        sat, model := true, Some(assignment);
      } else {
        sat, model := false, None;
        forall a | Sat(a, originalClauses) ensures false {
          assert Extends(a, map[]);
        }
      }
    }

    /** `_dpll(depth)`: true with a satisfying assignment, or false when no extension of the entry assignment satisfies the formula. */
    method Dpll(depth: nat) returns (result: bool)
      requires Valid()
      modifies this`clauses, this`assignment, this`numDecisions, this`numPropagations, this`maxDepth
      ensures Valid()
      ensures result ==> Sat(assignment, originalClauses)
      ensures !result ==> !Satisfiable(originalClauses, old(assignment))
      decreases Unassigned(), 2
    {
      ghost var a0 := assignment;
      ghost var f := originalClauses;
      maxDepth := if maxDepth >= depth then maxDepth else depth;

      var ok := UnitPropagate();
      if !ok {
        return false;
      }
      ghost var a1 := assignment;

      if AllClausesSatisfied() {
        EmptyReduceSat(f, assignment);
        return true;
      }
      if HasEmptyClause() {
        EmptyClauseUnsat(f, assignment);
        return false;
      }

      PureLiteralEliminate();

      if AllClausesSatisfied() {
        EmptyReduceSat(f, assignment);
        return true;
      }
      if HasEmptyClause() {
        EmptyClauseUnsat(f, assignment);
        return false;
      }

      NonEmptyHasVar(clauses);
      ReduceVars(f, assignment);
      var v := ChooseVariable();
      if v.None? {
        // every variable of the working list is unassigned, so this does not happen
        return false;
      }
      result := Branch(v.value, depth);
    }

    /** The branching of `_dpll`: try `x` True, then False, restoring the state in between. */
    method Branch(x: int, depth: nat) returns (result: bool)
      requires Valid() && x in Vars(clauses) && x !in assignment
      modifies this`clauses, this`assignment, this`numDecisions, this`numPropagations, this`maxDepth
      ensures Valid()
      ensures result ==> Sat(assignment, originalClauses)
      ensures !result ==> !Satisfiable(originalClauses, old(assignment))
      decreases Unassigned(), 1
    {
      ghost var a2 := assignment;
      numDecisions := numDecisions + 1;
      result := TryAssignment(x, true, depth);
      if result {
        return true;
      }

      numDecisions := numDecisions + 1;
      result := TryAssignment(x, false, depth);
      if result {
        return true;
      }
      SplitOnVar(originalClauses, a2, x);
      return false;
    }

    /**
     * `_unit_propagate`: assigns unit literals to a fixpoint, so no unit
     * clause is left on `true`; `false` on a unit literal contradicting the
     * assignment, which a pair of complementary unit clauses always causes.
     */
    method UnitPropagate() returns (ok: bool)
      requires Valid()
      modifies this`clauses, this`assignment, this`numPropagations
      ensures Valid()
      ensures Extends(assignment, old(assignment)) && Unassigned() <= old(Unassigned())
      ensures ok ==> UnitLiterals(clauses) == [] && SolutionsKept(originalClauses, old(assignment), assignment)
      ensures !ok ==> !Satisfiable(originalClauses, old(assignment))
      ensures ComplementaryUnits(old(clauses)) ==> !ok
      ensures numPropagations == old(numPropagations) + |assignment| - |old(assignment)|
    {
      ghost var a0 := assignment;
      ghost var c0 := clauses;
      ghost var f := originalClauses;
      ghost var p0 := numPropagations;
      var changed := true;
      while changed
        invariant Valid() && changed
        invariant Extends(assignment, a0) && Unassigned() <= |Vars(f) - a0.Keys|
        invariant SolutionsKept(f, a0, assignment)
        invariant numPropagations == p0 + |assignment| - |a0|
        invariant ComplementaryUnits(c0) ==> clauses == c0
        decreases Unassigned()
      {
        changed := false;
        var units := UnitLiterals(clauses);
        if units == [] {
          break;
        }
        ok, changed := PropagatePass(units, f, a0, p0);
        if !ok {
          return false;
        }
      }
      return true;
    }

    /**
     * One pass of `_unit_propagate`'s loop over the unit literals found at
     * its start: each unassigned one is assigned, and the pass stops with
     * `false` at one its variable already contradicts. The first literal is
     * always unassigned, so a completed pass always changes something.
     */
    method PropagatePass(units: seq<int>, ghost f: Formula, ghost a0: Assignment, ghost p0: nat) returns (ok: bool, changed: bool)
      requires Valid() && f == originalClauses && units == UnitLiterals(clauses) && units != []
      requires Extends(assignment, a0) && SolutionsKept(f, a0, assignment) && numPropagations == p0 + |assignment| - |a0|
      modifies this`clauses, this`assignment, this`numPropagations
      ensures Valid() && Extends(assignment, old(assignment)) && Extends(assignment, a0)
      ensures SolutionsKept(f, a0, assignment) && numPropagations == p0 + |assignment| - |a0|
      ensures Unassigned() <= old(Unassigned())
      ensures !ok ==> !Satisfiable(f, a0)
      ensures ok ==> changed && Unassigned() < old(Unassigned())
      ensures ok ==> !ComplementaryUnits(old(clauses))
    {
      ghost var aStart := assignment;
      ghost var uStart := Unassigned();
      changed := false;
      for i := 0 to |units|
        invariant Valid()
        invariant Extends(assignment, aStart) && Extends(assignment, a0)
        invariant SolutionsKept(f, a0, assignment)
        invariant numPropagations == p0 + |assignment| - |a0|
        invariant Unassigned() <= uStart
        invariant changed ==> Unassigned() < uStart
        invariant !changed ==> assignment == aStart
        invariant i > 0 ==> changed
        invariant AllTrue(units[..i], assignment)
      {
        var lit := units[i];
        assert [lit] in Reduce(f, aStart);
        if i == 0 {
          UnitUnassigned(f, aStart, lit);
        }
        ghost var before := assignment;
        var conflict, bound := PropagateUnit(lit, f, a0, aStart, p0);
        if conflict {
          return false, changed;
        }
        if bound {
          changed := true;
        }
        AllTrueSnoc(units, i, before, assignment);
      }
      assert units[..|units|] == units;
      NoComplementaryUnits(f, aStart, assignment);
      ok := true;
    }

    /**
     * One unit literal of a pass: stop on a variable already bound the
     * other way, skip one already bound this way, otherwise assign it,
     * count a propagation and simplify.
     */
    method PropagateUnit(lit: int, ghost f: Formula, ghost a0: Assignment, ghost aStart: Assignment, ghost p0: nat)
      returns (conflict: bool, bound: bool)
      requires Valid() && f == originalClauses && [lit] in Reduce(f, aStart)
      requires Extends(assignment, aStart) && Extends(assignment, a0)
      requires SolutionsKept(f, a0, assignment) && numPropagations == p0 + |assignment| - |a0|
      modifies this`clauses, this`assignment, this`numPropagations
      ensures Valid() && Extends(assignment, aStart) && Extends(assignment, a0) && Extends(assignment, old(assignment))
      ensures SolutionsKept(f, a0, assignment) && numPropagations == p0 + |assignment| - |a0|
      ensures conflict ==> LitFalse(assignment, lit) && !Satisfiable(f, a0)
      ensures !conflict ==> LitTrue(assignment, lit)
      ensures bound <==> Abs(lit) !in old(assignment)
      ensures bound ==> Unassigned() == old(Unassigned()) - 1
      ensures !bound ==> assignment == old(assignment)
    {
      var v := Abs(lit);
      var value := lit > 0;
      if v in assignment {
        if assignment[v] != value {
          UnitConflict(f, a0, aStart, assignment, lit);
          return true, false;
        }
        return false, false;
      }
      UnitStep(f, a0, aStart, assignment, lit);
      Assign(v, value);
      numPropagations := numPropagations + 1;
      return false, true;
    }

    /** `_pure_literal_eliminate`: assigns every pure literal found, in any order. */
    method PureLiteralEliminate()
      requires Valid()
      modifies this`clauses, this`assignment
      ensures Valid()
      ensures Extends(assignment, old(assignment)) && Unassigned() <= old(Unassigned())
      ensures forall l :: l in PureLiterals(old(clauses), old(assignment)) ==> LitTrue(assignment, l)
      ensures assignment.Keys == old(assignment).Keys + VarsOfLits(PureLiterals(old(clauses), old(assignment)))
      ensures Satisfiable(originalClauses, old(assignment)) ==> Satisfiable(originalClauses, assignment)
    {
      ghost var a0 := assignment;
      ghost var f := originalClauses;
      ghost var c0 := clauses;
      var pure := FindPureLiterals();
      assert pure == PureLiterals(c0, a0);
      ReduceLits(f, assignment);
      assert 0 !in pure;
      PureLoop(pure, a0, c0);
      CardShrink(Vars(f), a0.Keys, assignment.Keys);
      assert old(clauses) == c0 && old(assignment) == a0;
    }

    /** The `for lit in pure_literals` loop of `_pure_literal_eliminate`, over a set in any order. */
    method PureLoop(pure: set<PureLit>, ghost a0: Assignment, ghost c0: Formula)
      requires PureProgress(a0, c0, pure, {})
      modifies this`clauses, this`assignment
      ensures PureProgress(a0, c0, {}, pure)
      ensures forall l :: l in pure ==> LitTrue(assignment, l)
      ensures assignment.Keys == a0.Keys + VarsOfLits(pure)
    {
      var remaining: set<PureLit> := pure;
      ghost var done: set<int> := {};
      while remaining != {}
        invariant PureProgress(a0, c0, remaining, done) && remaining <= pure && done == pure - remaining
        decreases remaining
      {
        var lit :| lit in remaining;
        PureVisit(lit, a0, c0, remaining, done);
        remaining := remaining - {lit};
        done := done + {lit};
      }
    }

    /**
     * The invariant of `_pure_literal_eliminate`'s loop over the pure
     * literals `PureLiterals(c0, a0)`: the visited ones (`done`) are true,
     * the assignment is the entry one plus their variables, the unvisited
     * ones are still unassigned, and satisfiability is kept.
     */
    ghost predicate PureProgress(a0: Assignment, c0: Formula, remaining: set<int>, done: set<int>)
      reads this`clauses, this`assignment
    {
      Valid() && Extends(assignment, a0) && (Satisfiable(originalClauses, a0) ==> Satisfiable(originalClauses, assignment)) &&
      Lits(clauses) <= Lits(c0) && PureBook(assignment, a0, PureLiterals(c0, a0), remaining, done)
    }

    /** One round of `_pure_literal_eliminate`'s loop: the literal's variable is still unassigned, so it is bound to the literal's sign. */
    method PureVisit(lit: int, ghost a0: Assignment, ghost c0: Formula, ghost remaining: set<int>, ghost done: set<int>)
      requires PureProgress(a0, c0, remaining, done) && lit in remaining
      modifies this`clauses, this`assignment
      ensures PureProgress(a0, c0, remaining - {lit}, done + {lit})
      ensures assignment == old(assignment)[Abs(lit) := lit > 0]
    {
      var v := Abs(lit);
      var value := lit > 0;
      if v !in assignment {
        ghost var a := assignment;
        AssignPure(lit, originalClauses, a0, c0);
        PureBookStep(a, a0, PureLiterals(c0, a0), remaining, done, lit);
      }
    }

    /** Binding a pure literal's unassigned variable to its sign and simplifying keeps satisfiability. */
    method AssignPure(lit: int, ghost f: Formula, ghost a0: Assignment, ghost c0: Formula)
      requires Valid() && f == originalClauses && lit in PureLiterals(c0, a0) && lit != 0 && Abs(lit) !in assignment
      requires Extends(assignment, a0) && (Satisfiable(f, a0) ==> Satisfiable(f, assignment)) && Lits(clauses) <= Lits(c0)
      modifies this`clauses, this`assignment
      ensures Valid() && assignment == old(assignment)[Abs(lit) := lit > 0]
      ensures Extends(assignment, a0) && (Satisfiable(f, a0) ==> Satisfiable(f, assignment)) && Lits(clauses) <= Lits(c0)
      ensures forall m :: m in PureLiterals(c0, a0) && m != 0 && Abs(m) == Abs(lit) ==> m == lit
    {
      PureStep(f, a0, c0, assignment, lit);
      Assign(Abs(lit), lit > 0);
    }

    function FindUnitClauses(): (r: seq<int>)
      reads this`clauses
      ensures forall l :: l in r <==> [l] in clauses
    {
      UnitLiterals(clauses)
    }

    function FindPureLiterals(): (r: set<int>)
      reads this`clauses, this`assignment
      ensures forall l {:trigger l in r} :: l != 0 ==> (l in r <==> l in Lits(clauses) && -l !in Lits(clauses) && Abs(l) !in assignment)
      ensures 0 in r ==> 0 in Lits(clauses)
    {
      PureLiterals(clauses, assignment)
    }

    /** `_all_clauses_satisfied`: the working list is empty, so every assignment satisfies it. */
    predicate AllClausesSatisfied(): (r: bool)
      reads this`clauses
      ensures r ==> forall a :: Sat(a, clauses)
    {
      |clauses| == 0
    }

    /** `_has_empty_clause`: the working list holds the empty clause, so no assignment satisfies it. */
    predicate HasEmptyClause(): (r: bool)
      reads this`clauses
      ensures r <==> [] in clauses
      ensures r ==> forall a :: !Sat(a, clauses)
    {
      exists c :: c in clauses && |c| == 0
    }

    /** `_choose_variable`: some unassigned variable still occurring in the working list, or None. */
    method ChooseVariable() returns (r: Option<int>)
      ensures r.Some? ==> r.value in Vars(clauses) && r.value !in assignment
      ensures r.None? ==> forall v :: v in Vars(clauses) ==> v in assignment
    {
      var appearing: set<nat> := {};
      for i := 0 to |clauses|
        invariant appearing == Vars(clauses[..i])
      {
        var c := clauses[i];
        for j := 0 to |c|
          invariant appearing == Vars(clauses[..i]) + set k | 0 <= k < j :: Abs(c[k])
        {
          appearing := appearing + {Abs(c[j])};
        }
        VarsSnoc(clauses[..i], c);
        assert clauses[..i + 1] == clauses[..i] + [c];
      }
      assert clauses[..|clauses|] == clauses;
      var rest := appearing;
      while rest != {}
        invariant rest <= appearing
        invariant forall v :: v in appearing - rest ==> v in assignment
        decreases rest
      {
        var v :| v in rest;
        if v !in assignment {
          return Some(v);
        }
        rest := rest - {v};
      }
      return None;
    }

    /** `_try_assignment`: on failure, the working list and the assignment are restored exactly. */
    method TryAssignment(v: int, value: bool, depth: nat) returns (result: bool)
      requires Valid() && v in Vars(clauses) && v !in assignment
      modifies this`clauses, this`assignment, this`numDecisions, this`numPropagations, this`maxDepth
      ensures Valid()
      ensures result ==> Sat(assignment, originalClauses)
      ensures !result ==> !Satisfiable(originalClauses, old(assignment)[v := value])
      ensures !result ==> clauses == old(clauses) && assignment == old(assignment)
      decreases Unassigned(), 0
    {
      var savedClauses := clauses;
      var savedAssignment := assignment;
      ReduceVars(originalClauses, assignment);
      VarPositive(originalClauses, v);
      CardStep(Vars(originalClauses), assignment.Keys, v);
      ExtendsUpdate(assignment, v, value);
      Assign(v, value);

      result := Dpll(depth + 1);
      if result {
        return true;
      }
      clauses := savedClauses;
      assignment := savedAssignment;
      return false;
    }

    /**
     * `self.assignment[var] = value` followed by `_simplify_with_assignment(var, value)`,
     * the pair every assignment site performs: the invariant carries over to the extended assignment.
     */
    method Assign(v: int, value: bool)
      requires Valid() && v > 0 && v !in assignment
      modifies this`clauses, this`assignment
      ensures Valid() && assignment == old(assignment)[v := value]
      ensures clauses == Simplify(old(clauses), v, value)
    {
      SimplifyReduce(originalClauses, assignment, v, value);
      assignment := assignment[v := value];
      SimplifyWithAssignment(v, value);
    }

    /** `_simplify_with_assignment(var, value)`: replaces the working list by its simplification. */
    method SimplifyWithAssignment(v: int, value: bool)
      modifies this`clauses
      ensures clauses == Simplify(old(clauses), v, value)
    {
      var lit := TrueLit(v, value);
      var negLit := -lit;
      var current := clauses;
      var newClauses: Formula := [];
      for i := 0 to |current|
        invariant newClauses == Simplify(current[..i], v, value)
      {
        var clause := current[i];
        assert current[..i + 1] == current[..i] + [clause];
        SimplifyAppend(current[..i], [clause], v, value);
        SimplifySingle(clause, v, value);
        if lit in clause {
          // satisfied: dropped
        } else if negLit in clause {
          newClauses := newClauses + [RemoveLit(clause, negLit)];
        } else {
          newClauses := newClauses + [clause];
        }
      }
      assert current[..|current|] == current;
      clauses := newClauses;
    }
  }

  lemma VarsSnoc(f: Formula, c: Clause)
    ensures Vars(f + [c]) == Vars(f) + set k | 0 <= k < |c| :: Abs(c[k])
  {
    var lhs := Vars(f + [c]);
    var rhs := Vars(f) + set k | 0 <= k < |c| :: Abs(c[k]);
    forall v | v in lhs ensures v in rhs {
      var d, l :| d in f + [c] && l in d && v == Abs(l);
      if d in f {
      } else {
        var k :| 0 <= k < |c| && c[k] == l;
      }
    }
    forall v | v in rhs ensures v in lhs {
      if v in Vars(f) {
        var d, l :| d in f && l in d && v == Abs(l);
        assert d in f + [c];
      } else {
        var k :| 0 <= k < |c| && v == Abs(c[k]);
        assert c in f + [c];
      }
    }
  }

  /** With nothing assigned, the working list is the original formula. */
  lemma {:induction false} NoneAssignedReduce(f: Formula)
    ensures Reduce(f, map[]) == f
  {
    if f != [] {
      NoneAssignedReduce(f[1..]);
      NoneAssignedRemove(f[0]);
      assert !ClauseSat(map[], f[0]);
    }
  }

  lemma {:induction false} NoneAssignedRemove(c: Clause)
    ensures RemoveFalse(map[], c) == c
  {
    if c != [] {
      NoneAssignedRemove(c[1..]);
    }
  }

  /** The variable of a unit literal of the working list is an original variable. */
  lemma UnitVar(f: Formula, a: Assignment, lit: int)
    requires NoZero(f) && [lit] in Reduce(f, a)
    ensures Abs(lit) in Vars(f) && Abs(lit) > 0
  {
    ReduceFrom(f, a, [lit]);
    var c :| c in f && !ClauseSat(a, c) && [lit] == RemoveFalse(a, c);
    assert lit in c;
  }

  /** Assigning a unit literal loses no solution. */
  lemma UnitKept(f: Formula, a0: Assignment, aStart: Assignment, a: Assignment, lit: int)
    requires [lit] in Reduce(f, aStart) && Extends(a, aStart) && Abs(lit) !in a
    requires SolutionsKept(f, a0, a)
    ensures SolutionsKept(f, a0, a[Abs(lit) := lit > 0])
  {
    forall b | Extends(b, a0) && Sat(b, f) ensures Extends(b, a[Abs(lit) := lit > 0]) {
      UnitForced(f, aStart, lit, b);
      ExtendsBoth(b, a, Abs(lit), lit > 0);
    }
  }

  /** An assignment agreeing with `a` and with the binding `v := value` extends `a[v := value]`. */
  lemma ExtendsBoth(b: Assignment, a: Assignment, v: nat, value: bool)
    requires Extends(b, a) && v in b && b[v] == value
    ensures Extends(b, a[v := value])
  {
  }

  /** A unit literal falsified by the current assignment: no solution extends the entry assignment. */
  lemma UnitConflict(f: Formula, a0: Assignment, aStart: Assignment, a: Assignment, lit: int)
    requires [lit] in Reduce(f, aStart) && Extends(a, aStart) && LitFalse(a, lit)
    requires SolutionsKept(f, a0, a)
    ensures !Satisfiable(f, a0)
  {
    forall b | Extends(b, a0) ensures !Sat(b, f) {
      if Sat(b, f) {
        UnitForced(f, aStart, lit, b);
      }
    }
  }

  /**
   * A pass of `_unit_propagate` that leaves every unit literal of the
   * reduced formula true cannot have met a complementary pair of unit
   * clauses: one of the two would have contradicted the assignment.
   */
  lemma NoComplementaryUnits(f: Formula, a: Assignment, b: Assignment)
    requires NoZero(f)
    requires AllTrue(UnitLiterals(Reduce(f, a)), b)
    ensures !ComplementaryUnits(Reduce(f, a))
  {
    forall l | [l] in Reduce(f, a) ensures [-l] !in Reduce(f, a) {
      ReduceUnitNonZero(f, a, l);
      assert l in UnitLiterals(Reduce(f, a));
      assert -l !in UnitLiterals(Reduce(f, a)) by {
        assert Abs(-l) == Abs(l);
      }
    }
  }

  /**
   * The bookkeeping of `_pure_literal_eliminate`'s loop over `pure`: the
   * visited literals (`done`) are true, the assignment is the entry one
   * plus their variables, and the unvisited ones are still unassigned.
   */
  ghost predicate PureBook(a: Assignment, a0: Assignment, pure: set<int>, remaining: set<int>, done: set<int>) {
    remaining <= pure && done == pure - remaining && 0 !in remaining &&
    (forall l :: l in remaining ==> Abs(l) !in a) &&
    (forall l :: l in done ==> LitTrue(a, l)) &&
    a.Keys == a0.Keys + VarsOfLits(done)
  }

  /** Binding a visited literal's variable to its sign keeps the bookkeeping, given no other pure literal shares the variable. */
  lemma PureBookStep(a: Assignment, a0: Assignment, pure: set<int>, remaining: set<int>, done: set<int>, lit: int)
    requires PureBook(a, a0, pure, remaining, done) && lit in remaining
    requires forall m :: m in pure && m != 0 && Abs(m) == Abs(lit) ==> m == lit
    ensures PureBook(a[Abs(lit) := lit > 0], a0, pure, remaining - {lit}, done + {lit})
  {
    VarsOfLitsAdd(done, lit);
  }

  /** The variables of a set of literals. */
  ghost function VarsOfLits(s: set<int>): set<nat> {
    set l | l in s :: Abs(l)
  }

  lemma VarsOfLitsAdd(s: set<int>, l: int)
    ensures VarsOfLits(s + {l}) == VarsOfLits(s) + {Abs(l)}
  {
  }

  /** One pure-literal assignment keeps every invariant of `_pure_literal_eliminate`'s loop. */
  lemma PureStep(f: Formula, a0: Assignment, c0: Formula, a: Assignment, l: int)
    requires l != 0 && Abs(l) !in a && l in PureLiterals(c0, a0) && Lits(Reduce(f, a)) <= Lits(c0)
    requires Extends(a, a0) && (Satisfiable(f, a0) ==> Satisfiable(f, a))
    ensures Extends(a[Abs(l) := l > 0], a0)
    ensures Satisfiable(f, a0) ==> Satisfiable(f, a[Abs(l) := l > 0])
    ensures Lits(Reduce(f, a[Abs(l) := l > 0])) <= Lits(c0)
  {
    var a' := a[Abs(l) := l > 0];
    ExtendsUpdate(a, Abs(l), l > 0);
    ExtendsTrans(a', a, a0);
    ReduceLitsShrink(f, a, a');
    PureStepSat(f, a0, c0, a, l);
  }

  lemma PureStepSat(f: Formula, a0: Assignment, c0: Formula, a: Assignment, l: int)
    requires l != 0 && Abs(l) !in a && l in PureLiterals(c0, a0) && Lits(Reduce(f, a)) <= Lits(c0)
    requires Satisfiable(f, a0) ==> Satisfiable(f, a)
    ensures Satisfiable(f, a0) ==> Satisfiable(f, a[Abs(l) := l > 0])
  {
    if Satisfiable(f, a) {
      assert -l !in Lits(c0);
      PurePreservesSat(f, a, l);
    }
  }


  /** One unit-literal assignment keeps every invariant of `_unit_propagate`'s loops and assigns one more original variable. */
  lemma UnitStep(f: Formula, a0: Assignment, aStart: Assignment, a: Assignment, lit: int)
    requires NoZero(f) && [lit] in Reduce(f, aStart)
    requires Extends(a, aStart) && Extends(a, a0) && Abs(lit) !in a
    requires SolutionsKept(f, a0, a)
    ensures Abs(lit) > 0
    ensures Extends(a[Abs(lit) := lit > 0], aStart) && Extends(a[Abs(lit) := lit > 0], a0)
    ensures |Vars(f) - a[Abs(lit) := lit > 0].Keys| == |Vars(f) - a.Keys| - 1
    ensures |a[Abs(lit) := lit > 0]| == |a| + 1
    ensures SolutionsKept(f, a0, a[Abs(lit) := lit > 0])
  {
    var v := Abs(lit);
    var a' := a[v := lit > 0];
    UnitVar(f, aStart, lit);
    ExtendsUpdate(a, v, lit > 0);
    ExtendsTrans(a', a, aStart);
    ExtendsTrans(a', a, a0);
    UnitKept(f, a0, aStart, a, lit);
    CardStep(Vars(f), a.Keys, v);
  }

  /** Assigning an unassigned variable extends the assignment by exactly that variable. */
  lemma ExtendsUpdate(a: Assignment, v: nat, value: bool)
    requires v !in a
    ensures Extends(a[v := value], a)
    ensures a[v := value].Keys == a.Keys + {v} && |a[v := value]| == |a| + 1
  {
  }

  /** A zero-free formula mentions only positive variables. */
  lemma VarPositive(f: Formula, v: int)
    requires NoZero(f) && v in Vars(f)
    ensures v > 0
  {
    var c, l :| c in f && l in c && v == Abs(l);
  }
}
