/**
  Three ways the repository decides that a dependency graph has no cycle: the
  in-place transitive closure and its diagonal, a stack search from every
  node, and the production elimination of nodes without dependents.
 */
module Closure {
  import opened Common
  import opened Graph

  /** The recurrence behind the triple loop: walks whose inner nodes are below k. */
  ghost predicate Via(g: Graph, k: nat, i: nat, j: nat) {
    if k == 0 then Edge(g, i, j)
    else Via(g, k - 1, i, j) || (Via(g, k - 1, i, k - 1) && Via(g, k - 1, k - 1, j))
  }

  /** Round k cannot change its own row and column, so reading updated entries is harmless. */
  lemma PivotStable(g: Graph, k: nat, i: nat)
    ensures Via(g, k + 1, i, k) == Via(g, k, i, k)
    ensures Via(g, k + 1, k, i) == Via(g, k, k, i)
  {
  }

  lemma {:induction false} ViaIsReachable(g: Graph, k: nat, i: nat, j: nat)
    requires Via(g, k, i, j)
    ensures ReachesPlus(g, i, j)
    decreases k
  {
    if k == 0 {
      EdgeReaches(g, i, j);
    } else if Via(g, k - 1, i, j) {
      ViaIsReachable(g, k - 1, i, j);
    } else {
      ViaIsReachable(g, k - 1, i, k - 1);
      ViaIsReachable(g, k - 1, k - 1, j);
      PlusTransitive(g, i, k - 1, j);
    }
  }

  /** A walk whose inner nodes are all below k is found by round k. */
  lemma {:induction false} WalkIsVia(g: Graph, k: nat, p: seq<nat>)
    requires Walk(g, p) && |p| > 1 && forall t :: 0 < t < |p| - 1 ==> p[t] < k
    ensures Via(g, k, p[0], Last(p))
    decreases k, |p|
  {
    assert |p| > 2 ==> p[1] < k;
    if k == 0 {
      assert Edge(g, p[0], p[0 + 1]);
    } else if t :| 0 < t < |p| - 1 && p[t] == k - 1 {
      WalkIsVia(g, k, p[..t + 1]);
      WalkIsVia(g, k, p[t..]);
      PivotStable(g, k - 1, p[0]);
      PivotStable(g, k - 1, Last(p));
    } else {
      WalkIsVia(g, k - 1, p);
    }
  }

  lemma ViaIsClosure(g: Graph, i: nat, j: nat)
    requires WellFormed(g)
    ensures Via(g, |g|, i, j) <==> ReachesPlus(g, i, j)
  {
    if Via(g, |g|, i, j) {
      ViaIsReachable(g, |g|, i, j);
    }
    if ReachesPlus(g, i, j) {
      var p: seq<nat> :| Walk(g, p) && |p| > 1 && p[0] == i && Last(p) == j;
      forall t | 0 < t < |p| - 1 ensures p[t] < |g| { assert Edge(g, p[t], p[t + 1]); }
      WalkIsVia(g, |g|, p);
    }
  }

  /** The triple loop, in place: the direct-edge matrix becomes nonempty-walk reachability. */
  method CloseInPlace(g: Graph, reach: array2<bool>)
    requires WellFormed(g) && reach.Length0 == reach.Length1 == |g|
    requires forall i, j :: 0 <= i < |g| && 0 <= j < |g| ==> reach[i, j] == Edge(g, i, j)
    modifies reach
    ensures forall i, j :: 0 <= i < |g| && 0 <= j < |g| ==> reach[i, j] == ReachesPlus(g, i, j)
  {
    var n := |g|;
    for k := 0 to n
      invariant forall i, j :: 0 <= i < n && 0 <= j < n ==> reach[i, j] == Via(g, k, i, j)
    {
      for i := 0 to n
        invariant forall i', j :: 0 <= i' < i && 0 <= j < n ==> reach[i', j] == Via(g, k + 1, i', j)
        invariant forall i', j :: i <= i' < n && 0 <= j < n ==> reach[i', j] == Via(g, k, i', j)
      {
        for j := 0 to n
          invariant forall i', j' :: 0 <= i' < i && 0 <= j' < n ==> reach[i', j'] == Via(g, k + 1, i', j')
          invariant forall i', j' :: i < i' < n && 0 <= j' < n ==> reach[i', j'] == Via(g, k, i', j')
          invariant forall j' :: 0 <= j' < j ==> reach[i, j'] == Via(g, k + 1, i, j')
          invariant forall j' :: j <= j' < n ==> reach[i, j'] == Via(g, k, i, j')
        {
          PivotStable(g, k, i);
          PivotStable(g, k, j);
          reach[i, j] := reach[i, j] || (reach[i, k] && reach[k, j]);
        }
      }
    }
    forall i, j | 0 <= i < n && 0 <= j < n ensures reach[i, j] == ReachesPlus(g, i, j) { ViaIsClosure(g, i, j); }
  }

  /** Edges, closure and diagonal test together. */
  method DiagonalAccepts(g: Graph) returns (acyclic: bool)
    requires WellFormed(g)
    ensures acyclic <==> Acyclic(g)
  {
    var n := |g|;
    var reach := new bool[n, n]((i, j) requires 0 <= i < n && 0 <= j < n => Edge(g, i, j));
    CloseInPlace(g, reach);
    acyclic := forall i | 0 <= i < n :: !reach[i, i];
  }

  /** The stack search from one root: true when the root is met again. */
  method MeetsRoot(g: Graph, root: nat) returns (cyclic: bool)
    requires WellFormed(g) && root < |g|
    ensures cyclic <==> ReachesPlus(g, root, root)
  {
    var seen: set<nat> := {};
    var pending: seq<nat> := g[root];
    forall s | s in pending ensures ReachesPlus(g, root, s) { EdgeReaches(g, root, s); }
    ghost var universe := Below(|g|);
    while pending != []
      invariant root !in seen
      invariant forall s | s in pending :: s < |g| && ReachesPlus(g, root, s)
      invariant forall s | s in seen :: s < |g| && ReachesPlus(g, root, s)
      invariant forall s | Edge(g, root, s) :: s in pending || s in seen
      invariant forall i, s | i in seen && Edge(g, i, s) :: s in pending || s in seen
      decreases universe - seen, |pending|
    {
      var index := Last(pending);
      ghost var before := pending;
      pending := Init(pending);
      assert before == pending + [index] && index in before;
      assert forall s | s in pending :: s in before;
      if index == root {
        return true;
      }
      if index !in seen {
        assert index in universe - seen;
        seen := seen + {index};
        forall s | s in g[index] ensures s < |g| && ReachesPlus(g, root, s) {
          EdgeReaches(g, index, s);
          PlusTransitive(g, root, index, s);
        }
        ghost var rest := pending;
        pending := pending + g[index];
        assert forall s | s in pending :: s in rest || s in g[index];
      }
    }
    if ReachesPlus(g, root, root) {
      var p: seq<nat> :| Walk(g, p) && |p| > 1 && p[0] == root && Last(p) == root;
      assert Edge(g, p[0], p[0 + 1]);
      assert Walk(g, p[1..]) by {
        forall i | 0 <= i < |p[1..]| - 1 ensures Edge(g, p[1..][i], p[1..][i + 1]) { assert Edge(g, p[i + 1], p[i + 2]); }
      }
      ClosedForward(g, seen, p[1..]);
    }
    return false;
  }

  method SearchAccepts(g: Graph) returns (acyclic: bool)
    requires WellFormed(g)
    ensures acyclic <==> Acyclic(g)
  {
    for root := 0 to |g|
      invariant forall i :: 0 <= i < root ==> !ReachesPlus(g, i, i)
    {
      var cyclic := MeetsRoot(g, root);
      if cyclic {
        return false;
      }
    }
    return true;
  }
}
