/**
 * The indexed binary max-heap behind the CDCL branching heuristic
 * (`var_order`, `var_pos`, keyed by `activity`), stated on values: the
 * solver's heap methods keep these predicates on their fields.
 */
module CdclHeap {

  /** The activity of a variable; variables outside the activity table have key 0. */
  function Key(act: seq<real>, v: nat): real {
    if v < |act| then act[v] else 0.0
  }

  /** `var_pos[var_order[i]] == i` for every slot, and every key of `var_pos` is a slot's variable. */
  predicate Indexed(order: seq<nat>, pos: map<nat, nat>) {
    (forall i :: 0 <= i < |order| ==> order[i] in pos && pos[order[i]] == i) &&
    (forall v {:trigger pos[v]} :: v in pos ==> pos[v] < |order| && order[pos[v]] == v)
  }

  /** Slot `p` holds an activity at least that of slot `i` (vacuous outside the heap). */
  predicate Dominates(order: seq<nat>, act: seq<real>, p: nat, i: nat) {
    p < |order| && i < |order| ==> Key(act, order[p]) >= Key(act, order[i])
  }

  /** Slot `i` holds no larger activity than its parent slot `(i - 1) / 2`. */
  predicate ParentOk(order: seq<nat>, act: seq<real>, i: nat) {
    0 < i ==> Dominates(order, act, (i - 1) / 2, i)
  }

  /** Max-heap order: every slot is dominated by its parent. */
  predicate Ordered(order: seq<nat>, act: seq<real>) {
    forall i :: 0 < i < |order| ==> ParentOk(order, act, i)
  }

  /** `k`'s parent dominates both children of `k` (nothing to say at the root). */
  predicate GrandparentOk(order: seq<nat>, act: seq<real>, k: nat) {
    0 < k ==> Dominates(order, act, (k - 1) / 2, 2 * k + 1) && Dominates(order, act, (k - 1) / 2, 2 * k + 2)
  }

  /**
   * The sift-up invariant of `_heap_decrease`: ordered except between slot `k`
   * and its parent, and `k`'s parent already dominates `k`'s children.
   */
  predicate OrderedExceptUp(order: seq<nat>, act: seq<real>, k: nat) {
    (forall i :: 0 < i < |order| && i != k ==> ParentOk(order, act, i)) && GrandparentOk(order, act, k)
  }

  /**
   * The invariant of `_heap_percolate_down`: ordered except between slot `k`
   * and its children, and `k`'s parent already dominates `k`'s children.
   */
  predicate OrderedExceptDown(order: seq<nat>, act: seq<real>, k: nat) {
    (forall i :: 0 < i < |order| && i != 2 * k + 1 && i != 2 * k + 2 ==> ParentOk(order, act, i)) &&
    GrandparentOk(order, act, k)
  }

  /** Two positions exchanged, as the tuple-swap statements of the sift loops and of `_propagate` do. */
  function Swap<T>(s: seq<T>, a: nat, b: nat): (r: seq<T>)
    requires a < |s| && b < |s|
    ensures |r| == |s| && r[a] == s[b] && r[b] == s[a]
    ensures forall i :: 0 <= i < |s| && i != a && i != b ==> r[i] == s[i]
    ensures multiset(r) == multiset(s)
  {
    s[a := s[b]][b := s[a]]
  }

  /** The two `var_pos` updates after a swap of slots `a` and `b`. */
  function Reposition(pos: map<nat, nat>, order: seq<nat>, a: nat, b: nat): map<nat, nat>
    requires a < |order| && b < |order|
  {
    pos[order[a] := a][order[b] := b]
  }

  /** Swapping two slots and recording both new positions keeps the index exact. */
  lemma SwapIndexed(order: seq<nat>, pos: map<nat, nat>, a: nat, b: nat)
    requires Indexed(order, pos) && a < |order| && b < |order|
    ensures Indexed(Swap(order, a, b), Reposition(pos, Swap(order, a, b), a, b))
    ensures Reposition(pos, Swap(order, a, b), a, b).Keys == pos.Keys
  {
    var o := Swap(order, a, b);
    var p := pos[o[a] := a][o[b] := b];
    forall i | 0 <= i < |o| ensures o[i] in p && p[o[i]] == i {
      if i != a && i != b {
        assert o[i] == order[i];
        assert order[i] != order[a] && order[i] != order[b];
      }
    }
    forall v | v in p ensures p[v] < |o| && o[p[v]] == v {
      if v != o[a] && v != o[b] {
        assert pos[v] != a && pos[v] != b;
      }
    }
  }

  /** One sift-up swap moves the defect from slot `k` to its parent. */
  lemma SwapUp(order: seq<nat>, act: seq<real>, k: nat)
    requires OrderedExceptUp(order, act, k) && 0 < k < |order|
    requires Key(act, order[(k - 1) / 2]) < Key(act, order[k])
    ensures OrderedExceptUp(Swap(order, k, (k - 1) / 2), act, (k - 1) / 2)
  {
    var p := (k - 1) / 2;
    var o := Swap(order, k, p);
    forall i | 0 < i < |o| && i != p ensures ParentOk(o, act, i) {
      var q := (i - 1) / 2;
      if i == k {
        assert Dominates(o, act, p, k);
      } else if q == k {
        assert Dominates(order, act, p, i);
        assert Dominates(o, act, k, i);
      } else if q == p {
        assert ParentOk(order, act, i);
        assert Dominates(o, act, p, i);
      } else {
        assert ParentOk(order, act, i);
        assert o[i] == order[i] && o[q] == order[q];
      }
    }
    if 0 < p {
      var g := (p - 1) / 2;
      assert ParentOk(order, act, p);
      assert o[g] == order[g];
      if 2 * p + 1 < |o| && 2 * p + 1 != k {
        assert ParentOk(order, act, 2 * p + 1);
      }
      if 2 * p + 2 < |o| && 2 * p + 2 != k {
        assert ParentOk(order, act, 2 * p + 2);
      }
    }
  }

  /** Sift-up stops when the parent dominates: the heap is ordered again. */
  lemma StopUp(order: seq<nat>, act: seq<real>, k: nat)
    requires OrderedExceptUp(order, act, k)
    requires 0 < k < |order| ==> Key(act, order[(k - 1) / 2]) >= Key(act, order[k])
    ensures Ordered(order, act)
  {
    forall i | 0 < i < |order| ensures ParentOk(order, act, i) {
    }
  }

  /** Raising the key of slot `k` of an ordered heap leaves only the edge to its parent broken. */
  lemma RaiseKey(order: seq<nat>, act: seq<real>, k: nat, v: nat, d: real)
    requires Ordered(order, act) && k < |order| && order[k] == v && v < |act| && d >= 0.0
    requires forall i :: 0 <= i < |order| && i != k ==> order[i] != v
    ensures OrderedExceptUp(order, act[v := act[v] + d], k)
  {
    var act' := act[v := act[v] + d];
    forall i | 0 < i < |order| && i != k ensures ParentOk(order, act', i) {
      assert ParentOk(order, act, i);
    }
    if 0 < k {
      assert ParentOk(order, act, k);
      if 2 * k + 1 < |order| {
        assert ParentOk(order, act, 2 * k + 1);
      }
      if 2 * k + 2 < |order| {
        assert ParentOk(order, act, 2 * k + 2);
      }
    }
  }

  /** Appending a slot (as `_heap_insert` does) leaves only the edge to its parent unchecked. */
  lemma AppendKey(order: seq<nat>, act: seq<real>, v: nat)
    requires Ordered(order, act)
    ensures OrderedExceptUp(order + [v], act, |order|)
  {
    var o := order + [v];
    forall i | 0 < i < |o| && i != |order| ensures ParentOk(o, act, i) {
      assert ParentOk(order, act, i);
      assert o[i] == order[i] && o[(i - 1) / 2] == order[(i - 1) / 2];
    }
  }

  /** The slot at which percolate-down starts after the last slot moves to the root. */
  lemma RootReplaced(order: seq<nat>, act: seq<real>)
    requires Ordered(order, act) && |order| >= 2
    ensures OrderedExceptDown(order[..|order| - 1][0 := order[|order| - 1]], act, 0)
  {
    var o := order[..|order| - 1][0 := order[|order| - 1]];
    forall i | 0 < i < |o| && i != 1 && i != 2 ensures ParentOk(o, act, i) {
      assert ParentOk(order, act, i);
      assert o[i] == order[i] && o[(i - 1) / 2] == order[(i - 1) / 2];
    }
  }

  /** One percolate-down swap with the larger child moves the defect to that child. */
  lemma SwapDown(order: seq<nat>, act: seq<real>, k: nat, c: nat)
    requires OrderedExceptDown(order, act, k) && (c == 2 * k + 1 || c == 2 * k + 2) && c < |order|
    requires Key(act, order[c]) > Key(act, order[k])
    requires Dominates(order, act, c, 2 * k + 1) && Dominates(order, act, c, 2 * k + 2)
    ensures OrderedExceptDown(Swap(order, k, c), act, c)
  {
    var o := Swap(order, k, c);
    forall i | 0 < i < |o| && i != 2 * c + 1 && i != 2 * c + 2 ensures ParentOk(o, act, i) {
      var q := (i - 1) / 2;
      if i == c {
      } else if q == k {
      } else if i == k {
        assert GrandparentOk(order, act, k);
      } else {
        assert ParentOk(order, act, i);
      }
    }
    assert ParentOk(order, act, 2 * c + 1) && ParentOk(order, act, 2 * c + 2);
  }

  /** Percolate-down stops when no child beats the slot: the heap is ordered again. */
  lemma StopDown(order: seq<nat>, act: seq<real>, k: nat)
    requires OrderedExceptDown(order, act, k)
    requires Dominates(order, act, k, 2 * k + 1) && Dominates(order, act, k, 2 * k + 2)
    ensures Ordered(order, act)
  {
    forall i | 0 < i < |order| ensures ParentOk(order, act, i) {
    }
  }

  /** The root of an ordered heap has the largest activity of all its slots. */
  lemma {:induction false} RootIsMax(order: seq<nat>, act: seq<real>, i: nat)
    requires Ordered(order, act) && i < |order|
    ensures Key(act, order[0]) >= Key(act, order[i])
    decreases i
  {
    if i > 0 {
      RootIsMax(order, act, (i - 1) / 2);
      assert ParentOk(order, act, i);
    }
  }
  /** Every slot holds a variable in `1..n`. */
  predicate InRange(order: seq<nat>, n: nat) {
    forall i :: 0 <= i < |order| ==> 1 <= order[i] <= n
  }

  lemma SwapInRange(order: seq<nat>, n: nat, a: nat, b: nat)
    requires InRange(order, n) && a < |order| && b < |order|
    ensures InRange(Swap(order, a, b), n)
  {
  }

  /** `_heap_insert`'s two updates index a new variable at the end. */
  lemma AppendIndexed(order: seq<nat>, pos: map<nat, nat>, v: nat)
    requires Indexed(order, pos) && v !in pos
    ensures Indexed(order + [v], pos[v := |order|])
  {
    var o := order + [v];
    var p := pos[v := |order|];
    forall i | 0 <= i < |o| ensures o[i] in p && p[o[i]] == i {
      if i < |order| {
        assert o[i] == order[i];
      }
    }
  }

  /** `_heap_pop`'s updates: the root leaves, and the last slot moves to the root. */
  lemma PopIndexed(order: seq<nat>, pos: map<nat, nat>)
    requires Indexed(order, pos) && |order| >= 1
    ensures |order| == 1 ==> Indexed([], pos - {order[0]})
    ensures |order| >= 2 ==>
      Indexed(order[..|order| - 1][0 := order[|order| - 1]], (pos - {order[0]})[order[|order| - 1] := 0])
  {
    var n := |order|;
    if n == 1 {
      forall v | v in pos ensures v == order[0] {
        assert pos[v] < 1;
      }
      assert (pos - {order[0]}).Keys == {};
    } else {
      var o := order[..n - 1][0 := order[n - 1]];
      var p := (pos - {order[0]})[order[n - 1] := 0];
      forall i | 0 <= i < |o| ensures o[i] in p && p[o[i]] == i {
        if i > 0 {
          assert o[i] == order[i];
          assert order[i] != order[0] && order[i] != order[n - 1];
        }
      }
      forall v | v in p ensures p[v] < |o| && o[p[v]] == v {
        if v != order[n - 1] {
          assert pos[v] != 0 && pos[v] != n - 1;
        }
      }
    }
  }

  /** Changing the key of a variable outside the heap leaves it ordered. */
  lemma KeyOutside(order: seq<nat>, act: seq<real>, v: nat, x: real)
    requires Ordered(order, act) && v < |act| && forall i :: 0 <= i < |order| ==> order[i] != v
    ensures Ordered(order, act[v := x])
  {
    var act2 := act[v := x];
    forall i | 0 < i < |order| ensures ParentOk(order, act2, i) {
      assert ParentOk(order, act, i);
    }
  }
  /** One iteration of the sift-up loop: swap slot `k` with its parent and record both positions. */
  lemma SiftUpStep(order: seq<nat>, pos: map<nat, nat>, act: seq<real>, n: nat, k: nat)
    requires Indexed(order, pos) && InRange(order, n) && OrderedExceptUp(order, act, k) && 0 < k < |order|
    requires Key(act, order[(k - 1) / 2]) < Key(act, order[k])
    ensures var o := Swap(order, k, (k - 1) / 2);
      Indexed(o, Reposition(pos, o, k, (k - 1) / 2)) && InRange(o, n) &&
      OrderedExceptUp(o, act, (k - 1) / 2) && o[(k - 1) / 2] == order[k] &&
      multiset(o) == multiset(order) && Reposition(pos, o, k, (k - 1) / 2).Keys == pos.Keys
  {
    SwapUp(order, act, k);
    SwapIndexed(order, pos, k, (k - 1) / 2);
    SwapInRange(order, n, k, (k - 1) / 2);
  }

  /** One iteration of the percolate-down loop: swap slot `k` with its larger child `c`. */
  lemma SiftDownStep(order: seq<nat>, pos: map<nat, nat>, act: seq<real>, n: nat, k: nat, c: nat)
    requires Indexed(order, pos) && InRange(order, n) && OrderedExceptDown(order, act, k)
    requires (c == 2 * k + 1 || c == 2 * k + 2) && c < |order|
    requires Key(act, order[c]) > Key(act, order[k])
    requires Dominates(order, act, c, 2 * k + 1) && Dominates(order, act, c, 2 * k + 2)
    ensures var o := Swap(order, k, c);
      Indexed(o, Reposition(pos, o, k, c)) && InRange(o, n) && OrderedExceptDown(o, act, c) &&
      multiset(o) == multiset(order) && Reposition(pos, o, k, c).Keys == pos.Keys
  {
    SwapDown(order, act, k, c);
    SwapIndexed(order, pos, k, c);
    SwapInRange(order, n, k, c);
  }
  /** The root dominates every variable of an indexed, ordered heap. */
  lemma RootDominates(order: seq<nat>, pos: map<nat, nat>, act: seq<real>)
    requires Indexed(order, pos) && Ordered(order, act) && |order| > 0
    ensures forall u :: u in pos ==> Key(act, u) <= Key(act, order[0])
  {
    forall u | u in pos ensures Key(act, u) <= Key(act, order[0]) {
      RootIsMax(order, act, pos[u]);
    }
  }

  /** `_heap_pop`'s removal of the root: the last slot moves to the root, which percolate-down then repairs. */
  lemma PopStep(order: seq<nat>, pos: map<nat, nat>, act: seq<real>, n: nat)
    requires Indexed(order, pos) && Ordered(order, act) && InRange(order, n) && |order| >= 2
    ensures var o := order[..|order| - 1][0 := order[|order| - 1]];
      Indexed(o, (pos - {order[0]})[order[|order| - 1] := 0]) && InRange(o, n) &&
      OrderedExceptDown(o, act, 0) && multiset(o) == multiset(order) - multiset{order[0]} &&
      (pos - {order[0]})[order[|order| - 1] := 0].Keys == pos.Keys - {order[0]}
  {
    var m := |order|;
    PopIndexed(order, pos);
    RootReplaced(order, act);
    var o := order[..m - 1][0 := order[m - 1]];
    assert order == [order[0]] + order[1..m - 1] + [order[m - 1]];
    assert o == [order[m - 1]] + order[1..m - 1];
    assert order[m - 1] in pos && order[m - 1] != order[0];
    forall i | 0 <= i < |o| ensures 1 <= o[i] <= n {
      if i > 0 { assert o[i] == order[i]; }
    }
  }

  /** Popping the only slot empties the heap. */
  lemma PopLast(order: seq<nat>, pos: map<nat, nat>)
    requires Indexed(order, pos) && |order| == 1
    ensures Indexed([], pos - {order[0]}) && multiset(order[..0]) == multiset(order) - multiset{order[0]}
    ensures (pos - {order[0]}).Keys == pos.Keys - {order[0]}
  {
    PopIndexed(order, pos);
    assert order == [order[0]];
  }
}
