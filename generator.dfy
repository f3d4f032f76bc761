/**
 * The two deterministic benchmark encoders: the pigeonhole formula and the
 * parity chain. Each builder is a loop that appends clauses, proved to
 * produce a closed-form clause list whose size, variables and meaning are
 * then stated as lemmas.
 */
module Generator {
  import opened Cnf

  /** Every variable `1..n` is assigned. */
  predicate Total(a: Assignment, n: int) {
    forall v: nat :: 1 <= v <= n ==> v in a
  }

  /** A positive literal is true exactly when its variable is true; its negation exactly when it is false. */
  lemma LitTotal(a: Assignment, v: nat)
    requires v >= 1 && v in a
    ensures LitTrue(a, v) <==> a[v]
    ensures LitTrue(a, -(v as int)) <==> !a[v]
  {
  }

  // ---------------------------------------------------------------- pigeonhole

  /** The variable "pigeon `i` sits in hole `j`" for `h` holes. */
  function PigeonVar(i: int, j: int, h: int): int {
    (i - 1) * h + j
  }

  /** Pigeon `i` is in some hole: its hole variables, in hole order. */
  function AtLeastOne(i: int, h: nat): Clause {
    seq(h, k => PigeonVar(i, k + 1, h))
  }

  /** The at-least-one clauses of pigeons `1..i`. */
  function Placements(i: nat, h: nat): seq<Clause> {
    if i == 0 then [] else Placements(i - 1, h) + [AtLeastOne(i, h)]
  }

  /** Pigeons `i1` and `i2` do not share hole `j`. */
  function Exclusion(i1: int, i2: int, j: int, h: int): Clause {
    [-PigeonVar(i1, j, h), -PigeonVar(i2, j, h)]
  }

  /** The exclusions of pigeon `i1` with the pigeons `i1 + 1..m` in hole `j`. */
  function Row(h: nat, j: nat, i1: nat, m: nat): seq<Clause> {
    if m <= i1 then [] else Row(h, j, i1, m - 1) + [Exclusion(i1, m, j, h)]
  }

  /** The exclusions of hole `j` whose first pigeon is in `1..m`. */
  function Hole(p: nat, h: nat, j: nat, m: nat): seq<Clause> {
    if m == 0 then [] else Hole(p, h, j, m - 1) + Row(h, j, m, p)
  }

  /** The exclusions of holes `1..m`, hole by hole. */
  function Exclusions(p: nat, h: nat, m: nat): seq<Clause> {
    if m == 0 then [] else Exclusions(p, h, m - 1) + Hole(p, h, m, p)
  }

  /** `generate_pigeonhole(p, h)`: the at-least-one clauses, then the exclusions. */
  function Pigeonhole(p: nat, h: nat): seq<Clause> {
    Placements(p, h) + Exclusions(p, h, h)
  }

  /** `generate_pigeonhole`: the three loops that append the clauses. */
  method GeneratePigeonhole(numPigeons: nat, numHoles: nat) returns (clauses: seq<Clause>)
    ensures clauses == Pigeonhole(numPigeons, numHoles)
  {
    clauses := PlacementLoop(numPigeons, numHoles);
    var j := 1;
    while j <= numHoles
      invariant 1 <= j <= numHoles + 1
      invariant clauses == Placements(numPigeons, numHoles) + Exclusions(numPigeons, numHoles, j - 1)
    {
      var hole := HoleLoop(numPigeons, numHoles, j);
      clauses := clauses + hole;
      j := j + 1;
    }
  }

  /** The first loop of `generate_pigeonhole`: one at-least-one clause per pigeon. */
  method PlacementLoop(numPigeons: nat, numHoles: nat) returns (clauses: seq<Clause>)
    ensures clauses == Placements(numPigeons, numHoles)
  {
    clauses := [];
    var i := 1;
    while i <= numPigeons
      invariant 1 <= i <= numPigeons + 1 && clauses == Placements(i - 1, numHoles)
    {
      var clause: Clause := [];
      var j := 1;
      while j <= numHoles
        invariant 1 <= j <= numHoles + 1 && clause == AtLeastOne(i, numHoles)[..j - 1]
      {
        var v := (i - 1) * numHoles + j;
        clause := clause + [v];
        j := j + 1;
      }
      assert clause == AtLeastOne(i, numHoles);
      clauses := clauses + [clause];
      i := i + 1;
    }
  }

  /** The two inner loops of `generate_pigeonhole` for hole `j`. */
  method HoleLoop(numPigeons: nat, numHoles: nat, j: nat) returns (clauses: seq<Clause>)
    ensures clauses == Hole(numPigeons, numHoles, j, numPigeons)
  {
    clauses := [];
    var i1 := 1;
    while i1 <= numPigeons
      invariant 1 <= i1 <= numPigeons + 1 && clauses == Hole(numPigeons, numHoles, j, i1 - 1)
    {
      var i2 := i1 + 1;
      ghost var base := clauses;
      while i2 <= numPigeons
        invariant i1 + 1 <= i2 <= numPigeons + 1 && clauses == base + Row(numHoles, j, i1, i2 - 1)
      {
        var var1 := (i1 - 1) * numHoles + j;
        var var2 := (i2 - 1) * numHoles + j;
        clauses := clauses + [[-var1, -var2]];
        i2 := i2 + 1;
      }
      i1 := i1 + 1;
    }
  }

  /** Clause `k` of the first group is the at-least-one clause of pigeon `k + 1`. */
  lemma {:induction false} PlacementsSpec(i: nat, h: nat)
    ensures |Placements(i, h)| == i
    ensures forall k :: 0 <= k < i ==> Placements(i, h)[k] == AtLeastOne(k + 1, h)
  {
    if i > 0 {
      PlacementsSpec(i - 1, h);
    }
  }

  lemma {:induction false} RowCount(h: nat, j: nat, i1: nat, m: nat)
    ensures |Row(h, j, i1, m)| == if m <= i1 then 0 else m - i1
  {
    if m > i1 {
      RowCount(h, j, i1, m - 1);
    }
  }

  lemma {:induction false} RowSpec(h: nat, j: nat, i1: nat, m: nat)
    ensures forall c :: c in Row(h, j, i1, m) <==> exists i2 :: i1 < i2 <= m && c == Exclusion(i1, i2, j, h)
  {
    if m > i1 {
      RowSpec(h, j, i1, m - 1);
    }
  }

  lemma {:induction false} HoleCount(p: nat, h: nat, j: nat, m: nat)
    requires m <= p
    ensures 2 * |Hole(p, h, j, m)| == m * (2 * p - m - 1)
  {
    if m > 0 {
      HoleCount(p, h, j, m - 1);
      RowCount(h, j, m, p);
      assert |Hole(p, h, j, m)| == |Hole(p, h, j, m - 1)| + (p - m);
      HoleArith(p, m);
    }
  }

  lemma HoleArith(p: int, m: int)
    requires 0 < m <= p
    ensures (m - 1) * (2 * p - (m - 1) - 1) + 2 * (p - m) == m * (2 * p - m - 1)
  {
    assert (m - 1) * (2 * p - m) == m * (2 * p - m) - (2 * p - m);
  }

  lemma {:induction false} HoleSpec(p: nat, h: nat, j: nat, m: nat)
    ensures forall c :: c in Hole(p, h, j, m) <==>
      exists i1, i2 :: 1 <= i1 <= m && i1 < i2 <= p && c == Exclusion(i1, i2, j, h)
  {
    if m > 0 {
      HoleSpec(p, h, j, m - 1);
      RowSpec(h, j, m, p);
      forall c ensures c in Hole(p, h, j, m) <==> c in Hole(p, h, j, m - 1) || c in Row(h, j, m, p) {
      }
    }
  }

  lemma {:induction false} ExclusionsSpec(p: nat, h: nat, m: nat)
    ensures |Exclusions(p, h, m)| == m * (p * (p - 1) / 2)
    ensures forall c :: c in Exclusions(p, h, m) <==>
      exists j, i1, i2 :: 1 <= j <= m && 1 <= i1 < i2 <= p && c == Exclusion(i1, i2, j, h)
  {
    if m > 0 {
      ExclusionsSpec(p, h, m - 1);
      HoleSpec(p, h, m, p);
      HoleCount(p, h, m, p);
      assert |Hole(p, h, m, p)| == p * (p - 1) / 2;
      assert |Exclusions(p, h, m)| == (m - 1) * (p * (p - 1) / 2) + p * (p - 1) / 2;
    }
  }

  /** `p` at-least-one clauses come first, then `h · p(p-1)/2` exclusions. */
  lemma PigeonholeCount(p: nat, h: nat)
    ensures |Pigeonhole(p, h)| == p + h * (p * (p - 1) / 2)
    ensures Pigeonhole(p, h)[..p] == Placements(p, h)
  {
    PlacementsSpec(p, h);
    ExclusionsSpec(p, h, h);
  }

  /** A pigeon and hole in range name a variable in `1..p·h`. */
  lemma PigeonVarRange(i: int, j: int, p: nat, h: nat)
    requires 1 <= i <= p && 1 <= j <= h
    ensures 1 <= PigeonVar(i, j, h) <= p * h
  {
    assert (i - 1) * h <= (p - 1) * h;
  }

  /** Every literal of a pigeonhole instance is over a variable in `1..p·h`. */
  lemma PigeonholeVars(p: nat, h: nat)
    ensures forall c, l :: c in Pigeonhole(p, h) && l in c ==> 1 <= Abs(l) <= p * h
  {
    PlacementsPositive(p, h);
    ExclusionsNegative(p, h);
    forall c, l | c in Pigeonhole(p, h) && l in c ensures 1 <= Abs(l) <= p * h {
      assert c in Placements(p, h) || c in Exclusions(p, h, h);
    }
  }

  /** The at-least-one clauses are all positive, over variables in `1..p·h`. */
  lemma PlacementsPositive(p: nat, h: nat)
    ensures forall c, l :: c in Placements(p, h) && l in c ==> 1 <= l <= p * h
  {
    PlacementsSpec(p, h);
    forall c, l | c in Placements(p, h) && l in c ensures 1 <= l <= p * h {
      var k :| 0 <= k < p && Placements(p, h)[k] == c;
      var t :| 0 <= t < h && c[t] == l;
      PigeonVarRange(k + 1, t + 1, p, h);
    }
  }

  /** The exclusions are all negative, over variables in `1..p·h`. */
  lemma ExclusionsNegative(p: nat, h: nat)
    ensures forall c, l :: c in Exclusions(p, h, h) && l in c ==> 1 <= -l <= p * h
  {
    ExclusionsSpec(p, h, h);
    forall c, l | c in Exclusions(p, h, h) && l in c ensures 1 <= -l <= p * h {
      var j, i1, i2 :| 1 <= j <= h && 1 <= i1 < i2 <= p && c == Exclusion(i1, i2, j, h);
      PigeonVarRange(i1, j, p, h);
      PigeonVarRange(i2, j, p, h);
    }
  }

  /** Pigeon `i` sits in some hole. */
  predicate Placed(a: Assignment, i: int, p: nat, h: nat)
    requires 1 <= i <= p && Total(a, p * h)
  {
    exists j :: 1 <= j <= h && InHole(a, i, j, p, h)
  }

  predicate InHole(a: Assignment, i: int, j: int, p: nat, h: nat)
    requires 1 <= i <= p && 1 <= j <= h && Total(a, p * h)
  {
    PigeonVarRange(i, j, p, h);
    a[PigeonVar(i, j, h)]
  }

  /**
   * Under a total assignment, the pigeonhole formula holds exactly when
   * every pigeon is in a hole and no hole holds two pigeons.
   */
  lemma PigeonholeMeaning(a: Assignment, p: nat, h: nat)
    requires Total(a, p * h)
    ensures Sat(a, Pigeonhole(p, h)) <==>
      (forall i :: 1 <= i <= p ==> Placed(a, i, p, h)) &&
      (forall j, i1, i2 :: 1 <= j <= h && 1 <= i1 < i2 <= p ==> !(InHole(a, i1, j, p, h) && InHole(a, i2, j, p, h)))
  {
    PlacementsSpec(p, h);
    ExclusionsSpec(p, h, h);
    SatConcat(a, Placements(p, h), Exclusions(p, h, h));
    PlacedMeaning(a, p, h);
    ExcludedMeaning(a, p, h);
  }

  lemma PlacedMeaning(a: Assignment, p: nat, h: nat)
    requires Total(a, p * h)
    ensures Sat(a, Placements(p, h)) <==> forall i :: 1 <= i <= p ==> Placed(a, i, p, h)
  {
    PlacementsSpec(p, h);
    forall i | 1 <= i <= p ensures ClauseSat(a, AtLeastOne(i, h)) <==> Placed(a, i, p, h) {
      var c := AtLeastOne(i, h);
      if ClauseSat(a, c) {
        var l :| l in c && LitTrue(a, l);
        var t :| 0 <= t < h && c[t] == l;
        PigeonVarRange(i, t + 1, p, h);
        assert InHole(a, i, t + 1, p, h);
      }
      if Placed(a, i, p, h) {
        var j :| 1 <= j <= h && InHole(a, i, j, p, h);
        PigeonVarRange(i, j, p, h);
        assert c[j - 1] in c && LitTrue(a, c[j - 1]);
      }
    }
    if Sat(a, Placements(p, h)) {
      forall i | 1 <= i <= p ensures ClauseSat(a, AtLeastOne(i, h)) {
        assert Placements(p, h)[i - 1] in Placements(p, h);
      }
    }
    if forall i :: 1 <= i <= p ==> Placed(a, i, p, h) {
      forall c | c in Placements(p, h) ensures ClauseSat(a, c) {
        var k :| 0 <= k < p && Placements(p, h)[k] == c;
        assert ClauseSat(a, AtLeastOne(k + 1, h));
      }
    }
  }

  lemma ExcludedMeaning(a: Assignment, p: nat, h: nat)
    requires Total(a, p * h)
    ensures Sat(a, Exclusions(p, h, h)) <==>
      forall j, i1, i2 :: 1 <= j <= h && 1 <= i1 < i2 <= p ==> !(InHole(a, i1, j, p, h) && InHole(a, i2, j, p, h))
  {
    ExclusionsSpec(p, h, h);
    forall j, i1, i2 | 1 <= j <= h && 1 <= i1 < i2 <= p
      ensures ClauseSat(a, Exclusion(i1, i2, j, h)) <==> !(InHole(a, i1, j, p, h) && InHole(a, i2, j, p, h))
    {
      PigeonVarRange(i1, j, p, h);
      PigeonVarRange(i2, j, p, h);
      LitTotal(a, PigeonVar(i1, j, h));
      LitTotal(a, PigeonVar(i2, j, h));
      var c := Exclusion(i1, i2, j, h);
      assert forall l :: l in c <==> l == c[0] || l == c[1];
    }
  }

  // ------------------------------------------------------------------- parity

  /**
   * The four clauses the source writes for one chain step: they exclude the
   * four triples (prev, x, curr) of even parity, so they force
   * `curr == (prev == x)`.
   */
  function XnorGroup(prev: int, x: int, curr: int): seq<Clause> {
    [[prev, x, curr], [prev, -x, -curr], [-prev, x, -curr], [-prev, -x, curr]]
  }

  /** The four clauses of `curr == prev XOR x`, which the comment above the chain describes: they exclude the triples of odd parity. */
  function XorGroup(prev: int, x: int, curr: int): seq<Clause> {
    [[-prev, -x, -curr], [prev, x, -curr], [prev, -x, curr], [-prev, x, curr]]
  }

  function StepGroup(prev: int, x: int, curr: int, xor: bool): seq<Clause> {
    if xor then XorGroup(prev, x, curr) else XnorGroup(prev, x, curr)
  }

  /** The chain step groups for `i` in `2..m` over `n` inputs: aux `n + i` from aux `n + i - 1` and `x_i`. */
  function Groups(n: nat, m: nat, xor: bool): seq<Clause> {
    if m < 2 then []
    else Groups(n, m - 1, xor) + StepGroup(n + 1 + m - 2, m, n + 1 + m - 1, xor)
  }

  /** `y1 = x1`, the chain, and the unit clause on the last auxiliary. */
  function ParityFormula(n: nat, xor: bool): seq<Clause> {
    [[-1, n + 1], [1, -(n + 1)]] + Groups(n, n, xor) + [[n + 1 + n - 1]]
  }

  /** `generate_parity(n)` as written. */
  function Parity(n: nat): seq<Clause> {
    ParityFormula(n, false)
  }

  /** The chain with the step the comment describes. */
  function ParityXor(n: nat): seq<Clause> {
    ParityFormula(n, true)
  }

  /** `generate_parity`: the appends before, in and after the chain loop. */
  method GenerateParity(numVars: nat) returns (clauses: seq<Clause>)
    ensures clauses == Parity(numVars)
  {
    clauses := [];
    var auxStart := numVars + 1;
    clauses := clauses + [[-1, auxStart]];
    clauses := clauses + [[1, -auxStart]];
    var i := 2;
    while i <= numVars
      invariant 2 <= i <= (if numVars < 2 then 2 else numVars + 1)
      invariant clauses == [[-1, auxStart], [1, -auxStart]] + Groups(numVars, i - 1, false)
    {
      var prevAux := auxStart + i - 2;
      var currAux := auxStart + i - 1;
      var xi := i;
      clauses := clauses + [[prevAux, xi, currAux]];
      clauses := clauses + [[prevAux, -xi, -currAux]];
      clauses := clauses + [[-prevAux, xi, -currAux]];
      clauses := clauses + [[-prevAux, -xi, currAux]];
      i := i + 1;
    }
    assert Groups(numVars, i - 1, false) == Groups(numVars, numVars, false);
    var finalAux := auxStart + numVars - 1;
    clauses := clauses + [[finalAux]];
  }

  lemma {:induction false} GroupsCount(n: nat, m: nat, xor: bool)
    ensures |Groups(n, m, xor)| == if m < 2 then 0 else 4 * (m - 1)
  {
    if m >= 2 {
      GroupsCount(n, m - 1, xor);
    }
  }

  /** `2 + 4(n - 1) + 1` clauses, the last being the unit clause on aux `2n`. */
  lemma ParityCount(n: nat, xor: bool)
    requires n >= 1
    ensures |ParityFormula(n, xor)| == 2 + 4 * (n - 1) + 1
    ensures ParityFormula(n, xor)[|ParityFormula(n, xor)| - 1] == [2 * n]
    ensures ParityFormula(n, xor)[..2] == [[-1, n + 1], [1, -(n + 1)]]
  {
    GroupsCount(n, n, xor);
  }

  /** The chain over `x_2..x_m` mentions only inputs `2..m` and auxiliaries `n + 1..n + m`. */
  lemma {:induction false} GroupsVars(n: nat, m: nat, xor: bool)
    requires m <= n
    ensures forall c, l :: c in Groups(n, m, xor) && l in c ==> (2 <= Abs(l) <= m || n + 1 <= Abs(l) <= n + m)
  {
    if m >= 2 {
      GroupsVars(n, m - 1, xor);
      var g := StepGroup(n + 1 + m - 2, m, n + 1 + m - 1, xor);
      forall c, l | c in g && l in c ensures 2 <= Abs(l) <= m || n + 1 <= Abs(l) <= n + m {
        var k :| 0 <= k < 4 && g[k] == c;
        var t :| 0 <= t < 3 && c[t] == l;
      }
    }
  }

  /** Every variable lies in `1..2n`: the inputs `1..n` and the auxiliaries `n + 1..2n`. */
  lemma ParityVars(n: nat, xor: bool)
    requires n >= 1
    ensures forall c, l :: c in ParityFormula(n, xor) && l in c ==> 1 <= Abs(l) <= 2 * n
  {
    GroupsVars(n, n, xor);
    forall c, l | c in ParityFormula(n, xor) && l in c ensures 1 <= Abs(l) <= 2 * n {
      assert c in [[-1, n + 1], [1, -(n + 1)]] || c in Groups(n, n, xor) || c == [n + 1 + n - 1];
    }
  }

  /** The value of variable `v`, false when unassigned. */
  function Val(a: Assignment, v: nat): bool {
    v in a && a[v]
  }

  /** The parity of `x1..xm`: true when an odd number of them are true. */
  function XorUpTo(a: Assignment, m: nat): bool {
    if m == 0 then false else XorUpTo(a, m - 1) != Val(a, m)
  }

  /** Each chain step `2..m` gives aux `n + i` from aux `n + i - 1` and `x_i`, by XOR or (as written) by XNOR. */
  predicate ChainHolds(a: Assignment, n: nat, m: nat, xor: bool) {
    forall i :: 2 <= i <= m ==> Val(a, n + i) == ((Val(a, n + i - 1) != Val(a, i)) == xor)
  }

  /** A three-literal clause holds exactly when one of its literals is true. */
  lemma Clause3(a: Assignment, l0: int, l1: int, l2: int)
    ensures ClauseSat(a, [l0, l1, l2]) <==> LitTrue(a, l0) || LitTrue(a, l1) || LitTrue(a, l2)
  {
    var c := [l0, l1, l2];
    assert c[0] == l0 && c[1] == l1 && c[2] == l2;
  }

  /** A four-clause formula holds exactly when each clause does. */
  lemma Sat4(a: Assignment, g: seq<Clause>)
    requires |g| == 4
    ensures Sat(a, g) <==> ClauseSat(a, g[0]) && ClauseSat(a, g[1]) && ClauseSat(a, g[2]) && ClauseSat(a, g[3])
  {
    assert forall c :: c in g <==> c == g[0] || c == g[1] || c == g[2] || c == g[3];
  }

  /** One step group holds exactly when `curr` is the XOR (or, as written, the XNOR) of `prev` and `x`. */
  lemma GroupMeaning(a: Assignment, prev: nat, x: nat, curr: nat, xor: bool)
    requires prev >= 1 && x >= 1 && curr >= 1 && prev in a && x in a && curr in a
    ensures Sat(a, StepGroup(prev, x, curr, xor)) <==> Val(a, curr) == ((Val(a, prev) != Val(a, x)) == xor)
  {
    if xor {
      XorGroupMeaning(a, prev, x, curr);
    } else {
      XnorGroupMeaning(a, prev, x, curr);
    }
  }

  lemma XorGroupMeaning(a: Assignment, prev: nat, x: nat, curr: nat)
    requires prev >= 1 && x >= 1 && curr >= 1 && prev in a && x in a && curr in a
    ensures Sat(a, XorGroup(prev, x, curr)) <==> a[curr] == (a[prev] != a[x])
  {
    LitTotal(a, prev);
    LitTotal(a, x);
    LitTotal(a, curr);
    var p, y, c := prev as int, x as int, curr as int;
    Sat4(a, XorGroup(prev, x, curr));
    Clause3(a, -p, -y, -c);
    Clause3(a, p, y, -c);
    Clause3(a, p, -y, c);
    Clause3(a, -p, y, c);
  }

  lemma XnorGroupMeaning(a: Assignment, prev: nat, x: nat, curr: nat)
    requires prev >= 1 && x >= 1 && curr >= 1 && prev in a && x in a && curr in a
    ensures Sat(a, XnorGroup(prev, x, curr)) <==> a[curr] == (a[prev] == a[x])
  {
    LitTotal(a, prev);
    LitTotal(a, x);
    LitTotal(a, curr);
    var p, y, c := prev as int, x as int, curr as int;
    Sat4(a, XnorGroup(prev, x, curr));
    Clause3(a, p, y, c);
    Clause3(a, p, -y, -c);
    Clause3(a, -p, y, -c);
    Clause3(a, -p, -y, c);
  }

  lemma {:induction false} GroupsMeaning(a: Assignment, n: nat, m: nat, xor: bool)
    requires m <= n && Total(a, 2 * n)
    ensures Sat(a, Groups(n, m, xor)) <==> ChainHolds(a, n, m, xor)
  {
    if m >= 2 {
      GroupsMeaning(a, n, m - 1, xor);
      var g := StepGroup(n + 1 + m - 2, m, n + 1 + m - 1, xor);
      assert Groups(n, m, xor) == Groups(n, m - 1, xor) + g;
      assert ChainHolds(a, n, m, xor) <==> ChainHolds(a, n, m - 1, xor) && Val(a, n + m) == ((Val(a, n + (m - 1)) != Val(a, m)) == xor);
      SatConcat(a, Groups(n, m - 1, xor), StepGroup(n + 1 + m - 2, m, n + 1 + m - 1, xor));
      GroupMeaning(a, n + 1 + m - 2, m, n + 1 + m - 1, xor);
    }
  }

  /**
   * Under a total assignment of `1..2n`, the formula holds exactly when aux
   * `n + 1` equals `x1`, every chain step holds, and aux `2n` is true.
   */
  lemma ParityMeaning(a: Assignment, n: nat, xor: bool)
    requires n >= 1 && Total(a, 2 * n)
    ensures Sat(a, ParityFormula(n, xor)) <==> Val(a, n + 1) == Val(a, 1) && ChainHolds(a, n, n, xor) && Val(a, 2 * n)
  {
    var head: seq<Clause> := [[-1, n + 1], [1, -(n + 1)]];
    var last: seq<Clause> := [[n + 1 + n - 1]];
    SatConcat(a, head, Groups(n, n, xor));
    SatConcat(a, head + Groups(n, n, xor), last);
    GroupsMeaning(a, n, n, xor);
    LitTotal(a, 1);
    LitTotal(a, n + 1);
    LitTotal(a, 2 * n);
    assert forall l :: l in head[0] <==> l == -1 || l == n + 1;
    assert forall l :: l in head[1] <==> l == 1 || l == -(n + 1);
    assert Sat(a, head) <==> ClauseSat(a, head[0]) && ClauseSat(a, head[1]);
    assert Sat(a, last) <==> ClauseSat(a, last[0]);
  }

  /** Along a holding chain, aux `n + m` is the parity of `x1..xm` (XOR), or that parity compared with the parity of `m` (XNOR). */
  lemma {:induction false} ChainValue(a: Assignment, n: nat, m: nat, xor: bool)
    requires 1 <= m <= n && Val(a, n + 1) == Val(a, 1) && ChainHolds(a, n, m, xor)
    ensures Val(a, n + m) == (XorUpTo(a, m) == (xor || m % 2 == 1))
  {
    if m > 1 {
      ChainValue(a, n, m - 1, xor);
      assert Val(a, n + m) == ((Val(a, n + (m - 1)) != Val(a, m)) == xor);
    }
  }

  /**
   * As written, a model of the parity formula has inputs of parity
   * `n mod 2`: for even `n` the formula demands even parity.
   */
  lemma ParityAsWritten(a: Assignment, n: nat)
    requires n >= 1 && Total(a, 2 * n) && Sat(a, Parity(n))
    ensures XorUpTo(a, n) == (n % 2 == 1)
  {
    ParityMeaning(a, n, false);
    ChainValue(a, n, n, false);
  }

  /** With `n = 2`, `x1 = true` and `x2 = false` have odd parity, yet no choice of the auxiliaries satisfies the formula. */
  lemma ParityCounterexample(a: Assignment)
    requires Total(a, 4) && Val(a, 1) && !Val(a, 2)
    ensures XorUpTo(a, 2) && !Sat(a, Parity(2))
  {
    if Sat(a, Parity(2)) {
      ParityAsWritten(a, 2);
    }
  }

  /**
   * With XOR steps the formula holds exactly for odd-parity inputs whose
   * auxiliaries carry the running parity.
   */
  lemma ParityXorMeaning(a: Assignment, n: nat)
    requires n >= 1 && Total(a, 2 * n)
    ensures Sat(a, ParityXor(n)) ==> XorUpTo(a, n)
    ensures XorUpTo(a, n) && (forall i :: 1 <= i <= n ==> Val(a, n + i) == XorUpTo(a, i)) ==> Sat(a, ParityXor(n))
  {
    ParityMeaning(a, n, true);
    if Sat(a, ParityXor(n)) {
      ChainValue(a, n, n, true);
    }
    if XorUpTo(a, n) && (forall i :: 1 <= i <= n ==> Val(a, n + i) == XorUpTo(a, i)) {
      assert Val(a, n + 1) == XorUpTo(a, 1);
      assert Val(a, n + n) == XorUpTo(a, n);
      forall i | 2 <= i <= n ensures Val(a, n + i) == ((Val(a, n + i - 1) != Val(a, i)) == true) {
        assert Val(a, n + (i - 1)) == XorUpTo(a, i - 1);
        assert Val(a, n + i) == XorUpTo(a, i);
      }
      assert ChainHolds(a, n, n, true);
      assert XorUpTo(a, 1) == Val(a, 1);
      assert Val(a, n + 1) == Val(a, 1);
      assert Val(a, 2 * n);
    }
  }
}
