/** Finite directed graphs as successor lists, and reachability by explicit walks. */
module Graph {
  import opened Common

  type Graph = seq<seq<nat>>

  ghost predicate WellFormed(g: Graph) {
    forall i, j :: 0 <= i < |g| && j in g[i] ==> j < |g|
  }

  predicate Edge(g: Graph, i: nat, j: nat) {
    i < |g| && j in g[i]
  }

  ghost predicate Walk(g: Graph, p: seq<nat>) {
    p != [] && forall i :: 0 <= i < |p| - 1 ==> Edge(g, p[i], p[i + 1])
  }

  /** A walk of any length, possibly none. */
  ghost predicate Reaches(g: Graph, a: nat, b: nat) {
    exists p: seq<nat> :: Walk(g, p) && p[0] == a && Last(p) == b
  }

  /** A walk of at least one edge. */
  ghost predicate ReachesPlus(g: Graph, a: nat, b: nat) {
    exists p: seq<nat> :: Walk(g, p) && |p| > 1 && p[0] == a && Last(p) == b
  }

  ghost predicate Acyclic(g: Graph) {
    forall i :: 0 <= i < |g| ==> !ReachesPlus(g, i, i)
  }

  lemma ReachesSelf(g: Graph, a: nat)
    ensures Reaches(g, a, a)
  {
    assert Walk(g, [a]) && Last([a]) == a;
  }

  lemma EdgeReaches(g: Graph, a: nat, b: nat)
    requires Edge(g, a, b)
    ensures ReachesPlus(g, a, b)
  {
    assert Walk(g, [a, b]) && Last([a, b]) == b;
  }

  /** Two walks meeting at b make one. */
  lemma WalkConcat(g: Graph, p: seq<nat>, q: seq<nat>)
    requires Walk(g, p) && Walk(g, q) && Last(p) == q[0]
    ensures Walk(g, p + q[1..]) && (p + q[1..])[0] == p[0] && Last(p + q[1..]) == Last(q)
  {
  }

  lemma PlusTransitive(g: Graph, a: nat, b: nat, c: nat)
    requires ReachesPlus(g, a, b) && ReachesPlus(g, b, c)
    ensures ReachesPlus(g, a, c)
  {
    var p: seq<nat> :| Walk(g, p) && |p| > 1 && p[0] == a && Last(p) == b;
    var q: seq<nat> :| Walk(g, q) && |q| > 1 && q[0] == b && Last(q) == c;
    WalkConcat(g, p, q);
  }

  lemma EdgeThenReaches(g: Graph, a: nat, b: nat, c: nat)
    requires Edge(g, a, b) && Reaches(g, b, c)
    ensures Reaches(g, a, c)
  {
    var q: seq<nat> :| Walk(g, q) && q[0] == b && Last(q) == c;
    assert Walk(g, [a, b]);
    WalkConcat(g, [a, b], q);
  }

  /** Walking forward never leaves a set closed under successors. */
  lemma {:induction false} ClosedForward(g: Graph, closed: set<nat>, p: seq<nat>)
    requires forall i, j :: i in closed && Edge(g, i, j) ==> j in closed
    requires Walk(g, p) && p[0] in closed
    ensures Last(p) in closed
  {
    if |p| > 1 {
      ClosedForward(g, closed, Init(p));
      assert Edge(g, p[|p| - 2], p[|p| - 2 + 1]);
    }
  }

  /** Walking backward never leaves a set closed under predecessors. */
  lemma {:induction false} ClosedBackward(g: Graph, closed: set<nat>, p: seq<nat>)
    requires forall i, j :: j in closed && Edge(g, i, j) ==> i in closed
    requires Walk(g, p) && Last(p) in closed
    ensures p[0] in closed
  {
    if |p| > 1 {
      assert Edge(g, p[|p| - 2], p[|p| - 2 + 1]);
      ClosedBackward(g, closed, Init(p));
    }
  }

  ghost function Below(n: nat): (s: set<nat>)
    ensures forall i: nat :: i in s <==> i < n
    ensures |s| == n
  {
    if n == 0 then {} else Below(n - 1) + {n - 1}
  }

  lemma {:induction false} SubsetSize(a: set<nat>, b: set<nat>)
    requires a <= b
    ensures |a| <= |b|
  {
    if a != {} {
      var x :| x in a;
      SubsetSize(a - {x}, b - {x});
    }
  }

  lemma FullSubset(a: set<nat>, b: set<nat>)
    requires a <= b && |a| >= |b|
    ensures a == b
  {
    if b - a != {} {
      var x :| x in b - a;
      SubsetSize(a, b - {x});
    }
    assert b == a + (b - a);
  }
}
