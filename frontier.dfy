/**
 * The loop shared by the two `compute_frontier` functions: each result is
 * on the frontier unless another result dominates it.  Results are numbered
 * `0 .. n-1` in input order, and the dominance test of each copy is a
 * parameter (`dom(c2, c1)`: `c2` excludes `c1` from the frontier).
 */
module Frontier {

  /** The dominance test is a strict partial order on the results. */
  ghost predicate StrictOrder(n: nat, dom: (nat, nat) -> bool) {
    && (forall a: nat :: a < n ==> !dom(a, a))
    && (forall a: nat, b: nat, c: nat :: a < n && b < n && c < n && dom(a, b) && dom(b, c) ==> dom(a, c))
  }

  /** Result `i` is on the frontier: no result dominates it. */
  ghost predicate Undominated(n: nat, dom: (nat, nat) -> bool, i: nat) {
    forall j: nat :: j < n ==> !dom(j, i)
  }

  /** The results that dominate `i`. */
  ghost function Dominators(n: nat, dom: (nat, nat) -> bool, i: nat): set<nat> {
    set j: nat | 0 <= j < n && dom(j, i)
  }

  /**
   * A dominated result is dominated by some result on the frontier, as long
   * as dominance is a strict order on finitely many results.
   */
  lemma {:induction false} MaximalDominator(n: nat, dom: (nat, nat) -> bool, i: nat, j: nat)
    requires StrictOrder(n, dom) && i < n && j < n && dom(j, i)
    ensures exists m: nat :: m < n && dom(m, i) && Undominated(n, dom, m)
    decreases |Dominators(n, dom, j)|
  {
    if !Undominated(n, dom, j) {
      var k: nat :| k < n && dom(k, j);
      var dk, dj := Dominators(n, dom, k), Dominators(n, dom, j);
      assert dk <= dj;
      assert k in dj - dk;
      assert dj == dk + (dj - dk);
      MaximalDominator(n, dom, i, k);
    }
  }

  /** The indices `lo .. n-1`, the results not yet visited. */
  function Upto(lo: nat, n: nat): (r: seq<nat>)
    ensures |r| == n - lo || (lo > n && r == [])
    ensures forall j :: j in r <==> lo <= j < n
    decreases n - lo
  {
    if lo >= n then [] else [lo] + Upto(lo + 1, n)
  }

  /**
   * When the results before `c1` on the frontier are `must` and those after
   * it are `maybe`, testing `c1` against both decides whether it is on the
   * frontier: a result that dominates it is dominated in turn by one of them.
   */
  lemma FrontierStep(n: nat, dom: (nat, nat) -> bool, c1: nat, must: set<nat>, maybe: seq<nat>)
    requires StrictOrder(n, dom) && c1 < n && maybe == Upto(c1 + 1, n)
    requires forall i: nat :: i in must <==> i < c1 && Undominated(n, dom, i)
    ensures Undominated(n, dom, c1) <==>
      (forall c2 :: c2 in must ==> !dom(c2, c1)) && forall t :: 0 <= t < |maybe| ==> !dom(maybe[t], c1)
  {
    if !Undominated(n, dom, c1) {
      var j: nat :| j < n && dom(j, c1);
      MaximalDominator(n, dom, c1, j);
      var m: nat :| m < n && dom(m, c1) && Undominated(n, dom, m);
      if m < c1 {
        assert m in must && dom(m, c1);
      } else {
        assert m != c1;
        assert m in maybe;
        var t :| 0 <= t < |maybe| && maybe[t] == m;
        assert dom(maybe[t], c1);
      }
    } else {
      forall t | 0 <= t < |maybe| ensures !dom(maybe[t], c1) {
        assert maybe[t] in maybe;
      }
    }
  }

  /** The inner loop over the results already on the frontier: does none of them dominate `c1`? */
  method NoneDominates(must: set<nat>, dom: (nat, nat) -> bool, c1: nat) returns (ok: bool)
    ensures ok <==> forall c2 :: c2 in must ==> !dom(c2, c1)
  {
    ok := true;
    var rest := must;
    while rest != {} && ok
      invariant rest <= must
      invariant ok <==> forall c2 :: c2 in must - rest ==> !dom(c2, c1)
      decreases rest
    {
      var c2 :| c2 in rest;
      rest := rest - {c2};
      if dom(c2, c1) {
        ok := false;
      }
    }
  }

  /** The inner loop over the results not yet visited: does none of them dominate `c1`? */
  method NoneInDominates(maybe: seq<nat>, dom: (nat, nat) -> bool, c1: nat) returns (ok: bool)
    ensures ok <==> forall t :: 0 <= t < |maybe| ==> !dom(maybe[t], c1)
  {
    ok := true;
    var k := 0;
    while k < |maybe| && ok
      invariant 0 <= k <= |maybe|
      invariant ok <==> forall t :: 0 <= t < k ==> !dom(maybe[t], c1)
    {
      if dom(maybe[k], c1) {
        ok := false;
      }
      k := k + 1;
    }
  }

  /**
   * `compute_frontier`: walks the results in order, tests each one against
   * the results already found on the frontier and against those not yet
   * visited, and answers, for each result, whether it is on the frontier.
   */
  method ComputeFrontier(n: nat, dom: (nat, nat) -> bool) returns (on: seq<bool>)
    requires StrictOrder(n, dom)
    ensures |on| == n
    ensures forall i :: 0 <= i < n ==> (on[i] <==> Undominated(n, dom, i))
  {
    var maybe := Upto(0, n);
    var must: set<nat> := {};
    on := [];
    var c1 := 0;
    while c1 < n
      invariant c1 <= n && |on| == c1
      invariant maybe == Upto(c1, n)
      invariant forall i :: 0 <= i < c1 ==> (on[i] <==> Undominated(n, dom, i))
      invariant forall i: nat :: i in must <==> i < c1 && Undominated(n, dom, i)
    {
      maybe := maybe[1..];
      assert maybe == Upto(c1 + 1, n);
      FrontierStep(n, dom, c1, must, maybe);
      // first the results already known to be on the frontier ...
      var onFrontier := NoneDominates(must, dom, c1);
      // ... then the results not yet visited
      if onFrontier {
        onFrontier := NoneInDominates(maybe, dom, c1);
      }
      if onFrontier {
        must := must + {c1};
      }
      on := on + [onFrontier];
      c1 := c1 + 1;
    }
  }

  /**
   * The frontier does not depend on the order of the results: renumbering
   * the results by a bijection `perm` renumbers the frontier the same way.
   */
  lemma UndominatedPermuted(n: nat, dom: (nat, nat) -> bool, dom2: (nat, nat) -> bool, perm: seq<nat>, k: nat)
    requires |perm| == n && k < n
    requires forall a :: 0 <= a < n ==> perm[a] < n
    requires forall b: nat :: b < n ==> b in perm
    requires forall a, b :: 0 <= a < n && 0 <= b < n ==> (dom2(a, b) <==> dom(perm[a], perm[b]))
    ensures Undominated(n, dom2, k) <==> Undominated(n, dom, perm[k])
  {
    if !Undominated(n, dom, perm[k]) {
      var j: nat :| j < n && dom(j, perm[k]);
      assert j in perm;
      var a :| 0 <= a < n && perm[a] == j;
      assert dom2(a, k);
    }
  }
}
