/**
  The production reducer (`working/invalidation.rs`): in-place passes over the
  entries until one changes nothing, at most one pass per entry.  Superseded
  entries and unknown dependencies included, it marks exactly what rests on
  something unusable; on the memories of the discovery model that is what the
  reverse-graph worklist computes, frontiers included.
 */
module InvalidationProduction {
  import opened Common
  import opened Graph
  import opened Invalidation

  datatype Status = Open | Contradicted | Resolved | Stale | Superseded {
    predicate Unusable() { Stale? || Superseded? }
  }

  /**
    What the reducer reads and writes of an entry: whether its validity holds in the environment, and
    the positions it depends on, where a position past the end stands for an identity no entry has.
   */
  datatype Record = Record(holds: bool, dependencies: seq<nat>, status: Status, through: nat)

  function Links(records: seq<Record>): Graph {
    seq(|records|, i requires 0 <= i < |records| => records[i].dependencies)
  }

  /** An entry from which unusability starts. */
  predicate Source(records: seq<Record>, i: nat) {
    i < |records|
    && (records[i].status.Unusable() || !records[i].holds || exists d | d in records[i].dependencies :: d >= |records|)
  }

  ghost predicate Reached(records: seq<Record>, i: nat) {
    exists r: nat :: Source(records, r) && Reaches(Links(records), i, r)
  }

  /** A reached entry afterwards: superseded ones keep their status, stale ones only move when directly invalid. */
  function Mark(e: Record, through: nat): Record {
    if e.status.Superseded? || (e.status.Stale? && e.holds) then e else e.(status := Stale, through := through)
  }

  ghost function Marked(records: seq<Record>, through: nat): seq<Record> {
    seq(|records|, i requires 0 <= i < |records| => if Reached(records, i) then Mark(records[i], through) else records[i])
  }

  lemma ReachedSource(records: seq<Record>, i: nat)
    requires Source(records, i)
    ensures Reached(records, i)
  {
    ReachesSelf(Links(records), i);
  }

  lemma ReachedDependent(records: seq<Record>, i: nat, d: nat)
    requires Reached(records, d) && Edge(Links(records), i, d)
    ensures Reached(records, i)
  {
    var r: nat :| Source(records, r) && Reaches(Links(records), d, r);
    EdgeThenReaches(Links(records), i, d, r);
  }

  // ----- one pass -----

  /** Entry i is untouched, or reached and already marked. */
  ghost predicate Partial(records: seq<Record>, through: nat, result: seq<Record>, i: nat)
    requires i < |result| == |records|
  {
    result[i] == records[i] || (Reached(records, i) && result[i] == Mark(records[i], through))
  }

  ghost predicate Progress(records: seq<Record>, through: nat, result: seq<Record>) {
    |result| == |records| && forall i | 0 <= i < |result| :: Partial(records, through, result, i)
  }

  /** A direct invalidation has been recorded with the current frontier. */
  ghost predicate Settled(records: seq<Record>, through: nat, result: seq<Record>, i: nat)
    requires i < |result| == |records|
  {
    !records[i].holds ==> result[i] == Mark(records[i], through)
  }

  predicate UnusableDependency(records: seq<Record>, i: nat)
    requires i < |records|
  {
    exists d | d in records[i].dependencies :: d >= |records| || records[d].status.Unusable()
  }

  /** What one visit writes back. */
  function Visited(result: seq<Record>, through: nat, i: nat): Record
    requires i < |result|
  {
    var e := result[i];
    if e.status.Stale? && !e.holds then e.(status := Stale, through := through)
    else if !e.status.Unusable() && (!e.holds || UnusableDependency(result, i)) then e.(status := Stale, through := through)
    else e
  }

  lemma VisitIsPartial(records: seq<Record>, through: nat, result: seq<Record>, i: nat)
    requires Progress(records, through, result) && i < |result|
    ensures var after := result[i := Visited(result, through, i)];
            && Progress(records, through, after) && Settled(records, through, after, i)
            && (forall k | 0 <= k < |result| :: result[k].status.Unusable() ==> after[k].status.Unusable())
            && (after[i].status.Unusable() || !UnusableDependency(after, i))
  {
    assert Partial(records, through, result, i);
    var after := result[i := Visited(result, through, i)];
    if UnusableDependency(result, i) && !result[i].status.Unusable() {
      DependencyReached(records, through, result, i);
    }
    if Source(records, i) {
      ReachedSource(records, i);
    }
    assert Partial(records, through, after, i);
    forall k | 0 <= k < |after| ensures Partial(records, through, after, k) { assert Partial(records, through, result, k); }
  }

  lemma DependencyReached(records: seq<Record>, through: nat, result: seq<Record>, i: nat)
    requires Progress(records, through, result) && i < |result| && UnusableDependency(result, i)
    ensures Reached(records, i)
  {
    assert Partial(records, through, result, i);
    var d :| d in result[i].dependencies && (d >= |result| || result[d].status.Unusable());
    assert d in records[i].dependencies;
    if d >= |result| {
      ReachedSource(records, i);
    } else {
      UnusableIsReached(records, through, result, d);
      ReachedDependent(records, i, d);
    }
  }

  lemma UnusableIsReached(records: seq<Record>, through: nat, result: seq<Record>, i: nat)
    requires Progress(records, through, result) && i < |result| && result[i].status.Unusable()
    ensures Reached(records, i)
  {
    assert Partial(records, through, result, i);
    if result[i] == records[i] {
      ReachedSource(records, i);
    }
  }

  lemma SameFlags(a: seq<Record>, b: seq<Record>, i: nat)
    requires |a| == |b| && i < |a| && a[i].dependencies == b[i].dependencies
    requires forall k | 0 <= k < |a| :: a[k].status.Unusable() == b[k].status.Unusable()
    ensures UnusableDependency(a, i) == UnusableDependency(b, i)
  {
  }

  /** One scan over the entries, reading what the scan itself already wrote. */
  method OnePass(records: seq<Record>, through: nat, start: seq<Record>) returns (result: seq<Record>, changed: bool)
    requires Progress(records, through, start)
    ensures Progress(records, through, result)
    ensures forall i | 0 <= i < |result| ::
              Settled(records, through, result, i) && (start[i].status.Unusable() ==> result[i].status.Unusable())
    ensures changed ==> exists i :: 0 <= i < |result| && !start[i].status.Unusable() && result[i].status.Unusable()
    ensures !changed ==> forall i | 0 <= i < |result| :: result[i].status.Unusable() || !UnusableDependency(result, i)
  {
    result := start;
    changed := false;
    for index := 0 to |result|
      invariant Progress(records, through, result) && |result| == |start|
      invariant forall i | 0 <= i < index :: Settled(records, through, result, i)
      invariant forall i | 0 <= i < |result| :: start[i].status.Unusable() ==> result[i].status.Unusable()
      invariant changed ==> exists i :: 0 <= i < |result| && !start[i].status.Unusable() && result[i].status.Unusable()
      invariant !changed ==> forall i | 0 <= i < |result| :: start[i].status.Unusable() == result[i].status.Unusable()
      invariant !changed ==> forall i | 0 <= i < index :: result[i].status.Unusable() || !UnusableDependency(result, i)
    {
      ghost var before := result;
      VisitIsPartial(records, through, result, index);
      var entry := result[index];
      var dependencyStale := !entry.status.Unusable() && entry.holds && UnusableDependency(result, index);
      if entry.status.Stale? && !entry.holds {
        result := result[index := entry.(status := Stale, through := through)];
      } else if !entry.status.Unusable() && (!entry.holds || dependencyStale) {
        result := result[index := entry.(status := Stale, through := through)];
        assert !start[index].status.Unusable() && result[index].status.Unusable();
        changed := true;
      }
      assert result == before[index := Visited(before, through, index)];
      forall i | 0 <= i < index ensures Settled(records, through, result, i) { assert Settled(records, through, before, i); }
      if !changed {
        forall i | 0 <= i < index ensures result[i].status.Unusable() || !UnusableDependency(result, i) {
          SameFlags(before, result, i);
        }
      }
    }
  }

  // ----- the fixpoint -----

  ghost function UnusableSet(records: seq<Record>): set<nat> {
    set i | i in Below(|records|) && records[i].status.Unusable()
  }

  /** The reached entries lie in every set that holds the sources and is closed under dependents. */
  lemma ReachedLeast(records: seq<Record>, c: set<nat>, i: nat)
    requires forall r: nat :: Source(records, r) ==> r in c
    requires forall k: nat, j: nat :: j in c && Edge(Links(records), k, j) ==> k in c
    requires Reached(records, i)
    ensures i in c
  {
    var g := Links(records);
    var r: nat :| Source(records, r) && Reaches(g, i, r);
    var p: seq<nat> :| Walk(g, p) && p[0] == i && Last(p) == r;
    ClosedBackward(g, c, p);
  }

  /** Settled entries none of which is usable over something unusable are the final ones. */
  lemma ClosedIsMarked(records: seq<Record>, through: nat, result: seq<Record>)
    requires Progress(records, through, result) && forall i | 0 <= i < |result| :: Settled(records, through, result, i)
    requires forall i | 0 <= i < |result| :: result[i].status.Unusable() || !UnusableDependency(result, i)
    ensures result == Marked(records, through)
  {
    var c := UnusableSet(result);
    forall r: nat | Source(records, r) ensures r in c {
      SourceUnusable(records, through, result, r);
    }
    forall k: nat, j: nat | j in c && Edge(Links(records), k, j) ensures k in c {
      assert Partial(records, through, result, k) && j in result[k].dependencies;
      assert UnusableDependency(result, k);
    }
    forall i | 0 <= i < |result|
      ensures result[i] == if Reached(records, i) then Mark(records[i], through) else records[i]
    {
      assert Partial(records, through, result, i) && Settled(records, through, result, i);
      if Reached(records, i) {
        ReachedLeast(records, c, i);
      }
    }
  }

  lemma SourceUnusable(records: seq<Record>, through: nat, result: seq<Record>, r: nat)
    requires Progress(records, through, result) && Source(records, r) && Settled(records, through, result, r)
    requires result[r].status.Unusable() || !UnusableDependency(result, r)
    ensures result[r].status.Unusable()
  {
    assert Partial(records, through, result, r);
  }

  lemma PassGrows(start: seq<Record>, result: seq<Record>)
    requires |start| == |result|
    requires forall i | 0 <= i < |result| :: start[i].status.Unusable() ==> result[i].status.Unusable()
    requires exists i :: 0 <= i < |result| && !start[i].status.Unusable() && result[i].status.Unusable()
    ensures |UnusableSet(start)| < |UnusableSet(result)|
  {
    var i :| 0 <= i < |result| && !start[i].status.Unusable() && result[i].status.Unusable();
    assert i in UnusableSet(result) && UnusableSet(start) <= UnusableSet(result) - {i};
    SubsetSize(UnusableSet(start), UnusableSet(result) - {i});
  }

  /** As many passes as entries always suffice. */
  method InvalidateEntries(records: seq<Record>, through: nat) returns (result: seq<Record>)
    ensures result == Marked(records, through)
  {
    result := records;
    var pass := 0;
    while pass < |records|
      invariant pass <= |records| && Progress(records, through, result)
      invariant pass > 0 ==> forall i | 0 <= i < |result| :: Settled(records, through, result, i)
      invariant |UnusableSet(result)| >= pass
      decreases |records| - pass
    {
      var next, changed := OnePass(records, through, result);
      if !changed {
        ClosedIsMarked(records, through, next);
        return next;
      }
      PassGrows(result, next);
      result := next;
      pass := pass + 1;
    }
    FullSubset(UnusableSet(result), Below(|result|));
    forall i | 0 <= i < |result| ensures result[i].status.Unusable() { assert i in Below(|result|); }
    ClosedIsMarked(records, through, result);
  }

  /** Unusability starts at r: stale, superseded, no longer valid, or resting on an unknown identity. */
  ghost predicate StartsAt(records: seq<Record>, r: nat) {
    && r < |records|
    && (records[r].status in {Stale, Superseded} || !records[r].holds || exists d | d in records[r].dependencies :: d >= |records|)
  }

  ghost predicate RestsOnUnusable(records: seq<Record>, i: nat) {
    exists r: nat :: StartsAt(records, r) && Reaches(Links(records), i, r)
  }

  /**
    The outcome entry by entry: what rests on something unusable is stale, unless superseded, which
    is final; its frontier is the present one where it became stale or is itself no longer valid.
   */
  lemma MarkedExactly(records: seq<Record>, through: nat, i: nat)
    requires i < |records|
    ensures |Marked(records, through)| == |records|
    ensures var was, now := records[i], Marked(records, through)[i];
            && now.holds == was.holds && now.dependencies == was.dependencies
            && now.status == (if RestsOnUnusable(records, i) && was.status != Superseded then Stale else was.status)
            && now.through == if was.status != Superseded && (if was.status == Stale then !was.holds else RestsOnUnusable(records, i))
                              then through else was.through
  {
    forall r: nat ensures StartsAt(records, r) <==> Source(records, r) {}
    if records[i].status == Stale {
      ReachedSource(records, i);
    }
    hide Source, StartsAt;
    assert RestsOnUnusable(records, i) <==> Reached(records, i);
  }

  // ----- agreement with the worklist -----

  /** The records of a memory of the discovery model, where entries are open or stale. */
  function RecordsOf(nodes: seq<Node>, m: Memory): seq<Record>
    requires |nodes| == |m.entries|
  {
    seq(|nodes|, i requires 0 <= i < |nodes| =>
      Record(Holds(m.entries[i].basis, m), nodes[i].dependencies,
             if m.entries[i].stale then Stale else Open, m.entries[i].staleThrough))
  }

  lemma ReachedIsAffected(nodes: seq<Node>, m: Memory, i: nat)
    requires ValidNodes(nodes) && |nodes| == |m.entries|
    ensures Reached(RecordsOf(nodes, m), i) <==> Affected(nodes, m, i)
  {
    var records := RecordsOf(nodes, m);
    assert Links(records) == Dependencies(nodes);
    forall r: nat ensures Source(records, r) <==> Root(m, r) {
      if r < |nodes| {
        assert forall d | d in nodes[r].dependencies :: d < |nodes|;
      }
    }
  }

  /** On the discovery model's memories the passes mark what the worklist marks, frontiers included. */
  lemma MarkedIsRecomputed(nodes: seq<Node>, m: Memory, i: nat)
    requires ValidNodes(nodes) && i < |nodes| == |m.entries|
    ensures var r := Marked(RecordsOf(nodes, m), m.observations)[i];
            var e := Recomputed(nodes, m).entries[i];
            && r.status == (if e.stale then Stale else Open) && r.through == e.staleThrough
            && r.dependencies == nodes[i].dependencies
  {
    hide Reached, Affected, Holds, ValidNodes;
    ReachedIsAffected(nodes, m, i);
    AffectedRootOf(nodes, m, i);
  }

  lemma AffectedRootOf(nodes: seq<Node>, m: Memory, i: nat)
    requires i < |nodes| == |m.entries|
    ensures m.entries[i].stale ==> Affected(nodes, m, i)
  {
    if m.entries[i].stale {
      AffectedRoot(nodes, m, i);
    }
  }
}
