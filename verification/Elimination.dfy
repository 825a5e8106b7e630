/**
  The production cycle test of the context graph: repeatedly remove a node
  that no remaining node depends on, keeping the counts of remaining
  dependents in place, and report the first node that is never removed.
 */
module Elimination {
  import opened Common
  import opened Graph

  function Occurrences(s: seq<nat>, t: nat): nat {
    if s == [] then 0 else Occurrences(Init(s), t) + if Last(s) == t then 1 else 0
  }

  lemma {:induction false} OccurrencesPositive(s: seq<nat>, t: nat)
    ensures Occurrences(s, t) > 0 <==> t in s
  {
    if s != [] {
      OccurrencesPositive(Init(s), t);
      assert s == Init(s) + [Last(s)];
    }
  }

  /** How often the first k nodes that are not removed name t as a dependency. */
  function Dependents(g: Graph, removed: seq<bool>, k: nat, t: nat): nat
    requires k <= |g| == |removed|
  {
    if k == 0 then 0
    else Dependents(g, removed, k - 1, t) + if removed[k - 1] then 0 else Occurrences(g[k - 1], t)
  }

  lemma {:induction false} DependentsZero(g: Graph, removed: seq<bool>, k: nat, t: nat)
    requires k <= |g| == |removed|
    ensures Dependents(g, removed, k, t) == 0 <==> forall i | 0 <= i < k && Edge(g, i, t) :: removed[i]
  {
    if k > 0 {
      DependentsZero(g, removed, k - 1, t);
      OccurrencesPositive(g[k - 1], t);
    }
  }

  lemma {:induction false} DependentsRemove(g: Graph, removed: seq<bool>, k: nat, s: nat, t: nat)
    requires k <= |g| == |removed| && s < |g| && !removed[s]
    ensures Dependents(g, removed, k, t) ==
            Dependents(g, removed[s := true], k, t) + if s < k then Occurrences(g[s], t) else 0
  {
    if k > 0 {
      DependentsRemove(g, removed, k - 1, s, t);
    }
  }

  method InitialCounts(g: Graph, counts: array<nat>)
    requires WellFormed(g) && counts.Length == |g|
    requires forall t | 0 <= t < |g| :: counts[t] == 0
    modifies counts
    ensures forall t | 0 <= t < |g| :: counts[t] == Dependents(g, seq(|g|, _ => false), |g|, t)
  {
    ghost var none := seq(|g|, _ => false);
    for source := 0 to |g|
      invariant forall t | 0 <= t < |g| :: counts[t] == Dependents(g, none, source, t)
    {
      for d := 0 to |g[source]|
        invariant forall t | 0 <= t < |g| ::
                    counts[t] == Dependents(g, none, source, t) + Occurrences(g[source][..d], t)
      {
        var target := g[source][d];
        assert target in g[source];
        assert Init(g[source][..d + 1]) == g[source][..d];
        counts[target] := counts[target] + 1;
      }
      assert g[source][..|g[source]|] == g[source];
    }
  }

  method RemoveSource(g: Graph, counts: array<nat>, source: nat)
    requires WellFormed(g) && counts.Length == |g| && source < |g|
    requires forall t | 0 <= t < |g| :: counts[t] >= Occurrences(g[source], t)
    modifies counts
    ensures forall t | 0 <= t < |g| :: counts[t] == old(counts[t]) - Occurrences(g[source], t)
  {
    for d := 0 to |g[source]|
      invariant forall t | 0 <= t < |g| :: counts[t] == old(counts[t]) - Occurrences(g[source][..d], t)
    {
      var target := g[source][d];
      assert target in g[source];
      assert Init(g[source][..d + 1]) == g[source][..d];
      OccurrencesPrefix(g[source], d + 1, target);
      counts[target] := counts[target] - 1;
    }
    assert g[source][..|g[source]|] == g[source];
  }

  lemma {:induction false} OccurrencesPrefix(s: seq<nat>, k: nat, t: nat)
    requires k <= |s|
    ensures Occurrences(s[..k], t) <= Occurrences(s, t)
  {
    if k == |s| {
      assert s[..k] == s;
    } else {
      OccurrencesPrefix(Init(s), k, t);
      assert Init(s)[..k] == s[..k];
    }
  }

  /** Removed nodes have only removed dependents and lie on no cycle. */
  ghost predicate Peeled(g: Graph, removed: seq<bool>)
    requires |removed| == |g|
  {
    && (forall i: nat, j: nat | Edge(g, i, j) && j < |g| && removed[j] :: removed[i])
    && (forall i | 0 <= i < |g| && removed[i] :: !ReachesPlus(g, i, i))
  }

  lemma PeelOne(g: Graph, removed: seq<bool>, t: nat)
    requires WellFormed(g) && |removed| == |g| && Peeled(g, removed) && t < |g| && !removed[t]
    requires forall i: nat | Edge(g, i, t) :: removed[i]
    ensures Peeled(g, removed[t := true])
  {
    if ReachesPlus(g, t, t) {
      var p: seq<nat> :| Walk(g, p) && |p| > 1 && p[0] == t && Last(p) == t;
      var gone := set i | i in Below(|g|) && removed[i];
      assert Edge(g, p[|p| - 2], p[|p| - 2 + 1]);
      ClosedBackward(g, gone, Init(p));
    }
  }

  // ----- a stuck elimination means a cycle -----

  /** More than n numbers below n repeat. */
  lemma Pigeonhole(p: seq<nat>, n: nat)
    requires |p| > n && forall i | 0 <= i < |p| :: p[i] < n
    ensures !NoDup(p)
  {
    if NoDup(p) {
      NoDupSetSize(p);
      SubsetSize(Members(p), Below(n));
    }
  }

  ghost predicate HasDependent(g: Graph, removed: seq<bool>, t: nat)
    requires |removed| == |g|
  {
    exists i: nat :: Edge(g, i, t) && !removed[i]
  }

  /** Every remaining node has a remaining dependent. */
  ghost predicate Stuck(g: Graph, removed: seq<bool>)
    requires |removed| == |g|
  {
    forall t: nat {:trigger HasDependent(g, removed, t)} :: t < |g| && !removed[t] ==> HasDependent(g, removed, t)
  }

  /** Inside a set where every node has a dependent, walks back from r can be as long as one likes. */
  lemma {:induction false} WalkBack(g: Graph, removed: seq<bool>, r: nat, length: nat) returns (p: seq<nat>)
    requires |removed| == |g| && r < |g| && !removed[r] && length > 0
    requires Stuck(g, removed)
    ensures Walk(g, p) && |p| == length && Last(p) == r && forall i | 0 <= i < |p| :: p[i] < |g| && !removed[p[i]]
  {
    if length == 1 {
      p := [r];
    } else {
      var q := WalkBack(g, removed, r, length - 1);
      assert HasDependent(g, removed, q[0]);
      var i: nat :| Edge(g, i, q[0]) && !removed[i];
      p := [i] + q;
      forall k | 0 <= k < |p| - 1 ensures Edge(g, p[k], p[k + 1]) {
        if k > 0 {
          assert Edge(g, q[k - 1], q[k - 1 + 1]);
        }
      }
    }
  }

  lemma SubWalk(g: Graph, p: seq<nat>, i: nat, j: nat)
    requires Walk(g, p) && i <= j < |p|
    ensures Walk(g, p[i..j + 1]) && p[i..j + 1][0] == p[i] && Last(p[i..j + 1]) == p[j]
  {
  }

  /** Some cycle leads to the node. */
  ghost predicate FromCycle(g: Graph, i: nat) {
    exists c: nat :: c < |g| && ReachesPlus(g, c, c) && Reaches(g, c, i)
  }

  lemma StuckMeansCycle(g: Graph, removed: seq<bool>, r: nat)
    requires |removed| == |g| && r < |g| && !removed[r]
    requires Stuck(g, removed)
    ensures FromCycle(g, r)
  {
    var p := WalkBack(g, removed, r, |g| + 1);
    Pigeonhole(p, |g|);
    var i, j :| 0 <= i < j < |p| && p[i] == p[j];
    SubWalk(g, p, i, j);
    SubWalk(g, p, i, |p| - 1);
    assert ReachesPlus(g, p[i], p[i]) && Reaches(g, p[i], r);
  }

  method FirstRemovable(removed: array<bool>, counts: array<nat>) returns (r: Option<nat>)
    requires removed.Length == counts.Length
    ensures r.Some? ==> r.value < counts.Length && !removed[r.value] && counts[r.value] == 0
    ensures r.None? ==> forall i | 0 <= i < counts.Length :: removed[i] || counts[i] != 0
  {
    for i := 0 to counts.Length
      invariant forall j | 0 <= j < i :: removed[j] || counts[j] != 0
    {
      if !removed[i] && counts[i] == 0 {
        return Some(i);
      }
    }
    return None;
  }

  method FirstUnremoved(removed: array<bool>) returns (r: Option<nat>)
    ensures r.Some? ==> r.value < removed.Length && !removed[r.value]
    ensures forall i | 0 <= i < (if r.Some? then r.value else removed.Length) :: removed[i]
  {
    for i := 0 to removed.Length
      invariant forall j | 0 <= j < i :: removed[j]
    {
      if !removed[i] {
        return Some(i);
      }
    }
    return None;
  }

  /** The counts are exact for what remains, and nothing removed lies on a cycle. */
  ghost predicate Consistent(g: Graph, removed: seq<bool>, counts: seq<nat>) {
    && |removed| == |counts| == |g| && Peeled(g, removed)
    && forall t | 0 <= t < |g| :: counts[t] == Dependents(g, removed, |g|, t)
  }

  /** Removing a node without remaining dependents. */
  method RemoveNode(g: Graph, removed: array<bool>, counts: array<nat>, index: nat)
    requires WellFormed(g) && Consistent(g, removed[..], counts[..]) && index < |g|
    requires !removed[index] && counts[index] == 0
    modifies removed, counts
    ensures removed[..] == old(removed[..])[index := true] && Consistent(g, removed[..], counts[..])
  {
    ghost var before, after := removed[..], removed[..][index := true];
    DependentsZero(g, before, |g|, index);
    assert before[index] == removed[index] && counts[..][index] == counts[index];
    PeelOne(g, before, index);
    forall t | 0 <= t < |g|
      ensures counts[t] == Dependents(g, after, |g|, t) + Occurrences(g[index], t)
    {
      assert counts[..][t] == counts[t];
      DependentsRemove(g, before, |g|, index, t);
    }
    RemoveSource(g, counts, index);
    removed[index] := true;
    assert removed[..] == after;
  }

  lemma StuckFromCounts(g: Graph, removed: seq<bool>, counts: seq<nat>)
    requires Consistent(g, removed, counts) && forall i | 0 <= i < |g| :: removed[i] || counts[i] != 0
    ensures Stuck(g, removed)
  {
    forall t: nat | t < |g| && !removed[t] ensures HasDependent(g, removed, t) { DependentsZero(g, removed, |g|, t); }
  }

  lemma InitialConsistent(g: Graph, removed: seq<bool>, counts: seq<nat>)
    requires WellFormed(g) && removed == seq(|g|, _ => false) && |counts| == |g|
    requires forall t | 0 <= t < |g| :: counts[t] == Dependents(g, seq(|g|, _ => false), |g|, t)
    ensures Consistent(g, removed, counts)
  {
  }

  lemma AllPeeledIsAcyclic(g: Graph, removed: seq<bool>, counts: seq<nat>)
    requires WellFormed(g) && Consistent(g, removed, counts) && forall i | 0 <= i < |g| :: removed[i]
    ensures Acyclic(g)
  {
  }

  ghost predicate Remaining(left: set<nat>, removed: seq<bool>) {
    forall i: nat :: i in left <==> i < |removed| && !removed[i]
  }

  lemma RemainingAtFirst(removed: seq<bool>)
    requires removed == seq(|removed|, _ => false)
    ensures Remaining(Below(|removed|), removed) && |Below(|removed|)| == |removed|
  {
  }

  lemma RemainingAfter(left: set<nat>, removed: seq<bool>, i: nat)
    requires Remaining(left, removed) && i < |removed| && !removed[i]
    ensures i in left && Remaining(left - {i}, removed[i := true]) && |left - {i}| == |left| - 1
  {
  }

  lemma NothingRemains(left: set<nat>, removed: seq<bool>)
    requires Remaining(left, removed) && |left| == 0
    ensures forall i | 0 <= i < |removed| :: removed[i]
  {
  }

  /** Removes nodes until none is left or every node left has a dependent left. */
  method Peel(g: Graph, removed: array<bool>, counts: array<nat>)
    requires WellFormed(g) && Consistent(g, removed[..], counts[..])
    requires removed[..] == seq(|g|, _ => false)
    modifies removed, counts
    ensures Consistent(g, removed[..], counts[..])
    ensures Stuck(g, removed[..]) || forall i | 0 <= i < removed.Length :: removed[i]
  {
    var removedCount, exhausted := 0, false;
    ghost var left := Below(|g|);
    RemainingAtFirst(removed[..]);
    while removedCount < |g| && !exhausted
      invariant Remaining(left, removed[..]) && |left| == |g| - removedCount
      invariant Consistent(g, removed[..], counts[..])
      invariant exhausted ==> Stuck(g, removed[..])
      decreases |g| - removedCount, !exhausted
    {
      var next := FirstRemovable(removed, counts);
      if next.None? {
        StuckFromCounts(g, removed[..], counts[..]);
        exhausted := true;
      } else {
        RemainingAfter(left, removed[..], next.value);
        RemoveNode(g, removed, counts, next.value);
        left := left - {next.value};
        removedCount := removedCount + 1;
      }
    }
    if !exhausted {
      NothingRemains(left, removed[..]);
    }
  }

  /** Removal goes against the edges, so no cycle leads to a removed node. */
  lemma RemovedIsNotFromCycle(g: Graph, removed: seq<bool>, counts: seq<nat>, i: nat)
    requires WellFormed(g) && Consistent(g, removed, counts) && i < |g| && removed[i]
    ensures !FromCycle(g, i)
  {
    if FromCycle(g, i) {
      var c: nat :| c < |g| && ReachesPlus(g, c, c) && Reaches(g, c, i);
      var p: seq<nat> :| Walk(g, p) && p[0] == c && Last(p) == i;
      var gone := set j | j in Below(|g|) && removed[j];
      ClosedBackward(g, gone, p);
    }
  }

  /** Reports nothing exactly when the graph is acyclic, and otherwise the least node that some cycle leads to. */
  method CycleMember(g: Graph) returns (r: Option<nat>)
    requires WellFormed(g)
    ensures r.None? <==> Acyclic(g)
    ensures r.Some? ==> r.value < |g| && FromCycle(g, r.value) && forall i | 0 <= i < r.value :: !FromCycle(g, i)
  {
    hide Consistent, Stuck, FromCycle, Acyclic;
    var removed := new bool[|g|](_ => false);
    var counts := new nat[|g|](_ => 0);
    InitialCounts(g, counts);
    assert removed[..] == seq(|g|, _ => false);
    InitialConsistent(g, removed[..], counts[..]);
    Peel(g, removed, counts);
    r := FirstUnremoved(removed);
    if r.None? {
      AllPeeledIsAcyclic(g, removed[..], counts[..]);
    } else {
      StuckMeansCycle(g, removed[..], r.value);
      forall i | 0 <= i < r.value ensures !FromCycle(g, i) { RemovedIsNotFromCycle(g, removed[..], counts[..], i); }
    }
    assert r.Some? ==> !Acyclic(g) by { if r.Some? { FromCycleIsCyclic(g, r.value); } }
  }

  lemma FromCycleIsCyclic(g: Graph, i: nat)
    requires FromCycle(g, i)
    ensures !Acyclic(g)
  {
  }
}
