/**
 * Literals, clauses and formulas in conjunctive normal form, as the solvers
 * see them: a literal is a signed integer, its variable is its absolute value,
 * a clause is a list of literals and a formula is a list of clauses.
 */
module Cnf {

  type Clause = seq<int>
  type Formula = seq<Clause>

  /** A partial assignment, like the solvers' `assignment` dictionary: variable -> value. */
  type Assignment = map<nat, bool>

  function Abs(l: int): nat {
    if l < 0 then -l else l
  }

  /** The literal is made true: its variable is assigned the literal's polarity. */
  predicate LitTrue(a: Assignment, l: int) {
    Abs(l) in a && a[Abs(l)] == (l > 0)
  }

  /** The literal is made false: its variable is assigned the opposite polarity. */
  predicate LitFalse(a: Assignment, l: int) {
    Abs(l) in a && a[Abs(l)] != (l > 0)
  }

  predicate ClauseSat(a: Assignment, c: Clause) {
    exists l :: l in c && LitTrue(a, l)
  }

  /** Every clause has a literal made true by `a`. */
  predicate Sat(a: Assignment, f: Formula) {
    forall c :: c in f ==> ClauseSat(a, c)
  }

  /** The clauses with the empty ones dropped, in order. */
  function NonEmpty(cs: seq<Clause>): (r: seq<Clause>)
    ensures forall c :: c in r <==> c in cs && c != []
    ensures |r| <= |cs|
  {
    if cs == [] then []
    else (if cs[0] == [] then [] else [cs[0]]) + NonEmpty(cs[1..])
  }

  /** No clause contains the literal 0 (which would be its own complement). */
  predicate NoZero(f: Formula) {
    forall c, l :: c in f && l in c ==> l != 0
  }

  /** `big` agrees with every binding of `small`. */
  predicate Extends(big: Assignment, small: Assignment) {
    forall v :: v in small ==> v in big && big[v] == small[v]
  }

  function Lits(f: Formula): set<int> {
    set c, l | c in f && l in c :: l
  }

  function Vars(f: Formula): set<nat> {
    set c, l | c in f && l in c :: Abs(l)
  }

  lemma ExtendsTrans(a: Assignment, b: Assignment, c: Assignment)
    requires Extends(a, b) && Extends(b, c)
    ensures Extends(a, c)
  {
  }

  /** A clause false under an extension was false before it. */
  lemma ClauseUnsatAnti(small: Assignment, big: Assignment, c: Clause)
    requires Extends(big, small) && !ClauseSat(big, c)
    ensures !ClauseSat(small, c)
  {
    forall x | x in c ensures !LitTrue(small, x) {
      assert !LitTrue(big, x);
    }
  }

  /** A formula false under an extension was false before it. */
  lemma UnsatAnti(small: Assignment, big: Assignment, f: Formula)
    requires Extends(big, small) && !Sat(big, f)
    ensures !Sat(small, f)
  {
    var c :| c in f && !ClauseSat(big, c);
    ClauseUnsatAnti(small, big, c);
  }

  /** A concatenation is satisfied exactly when both parts are. */
  lemma SatConcat(a: Assignment, f: Formula, g: Formula)
    ensures Sat(a, f + g) <==> Sat(a, f) && Sat(a, g)
  {
    assert forall c :: c in f + g <==> c in f || c in g;
  }
}
