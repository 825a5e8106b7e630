/**
  What each operation does to a working memory: the environment it leaves,
  exactly which entries it makes stale, and how far back that staleness
  reaches, said over the declared dependencies alone.
 */
module InvalidationEffects {
  import opened Common
  import opened Graph
  import opened Invalidation

  /** The entry's content was derived from what the operation touches. */
  ghost predicate Hit(nodes: seq<Node>, op: Operation, r: nat) {
    && r < |nodes|
    && match op
       case File(index, _) => nodes[r].file.Some? && nodes[r].file.value == index % 4
       case Candidate(_) => nodes[r].candidate
       case Conversation => nodes[r].conversation
       case HostInvalidate(index) => r == index % |nodes|
       case RejectUnprovenRepair(index) => r == index % |nodes|
       case _ => false
  }

  /** A file or candidate set to what it is already, an observation, and a rejected request invalidate nothing. */
  ghost predicate Invalidates(m: Memory, op: Operation) {
    match op
    case File(index, content) => index % 4 < |m.files| && m.files[index % 4] != content
    case Candidate(value) => m.candidate != value
    case Conversation => true
    case HostInvalidate(_) => true
    case RejectUnprovenRepair(_) => true
    case _ => false
  }

  /** Some recorded part of the basis is no longer what the memory has. */
  ghost predicate Outlived(b: Basis, m: Memory) {
    || b.unknown
    || (b.file.Some? && (b.file.value.0 >= |m.files| || m.files[b.file.value.0] != Some(b.file.value.1)))
    || (b.candidate.Some? && b.candidate.value != m.candidate)
    || (b.conversation.Some? && b.conversation.value != m.conversation)
  }

  /** The environment and the counters after an operation. */
  ghost predicate EnvironmentAfter(m: Memory, op: Operation, n: Memory) {
    && |n.files| == |m.files| == 4
    && (forall k | 0 <= k < 4 :: n.files[k] == if op.File? && k == op.index % 4 then op.content else m.files[k])
    && n.candidate == (if op.Candidate? then op.value else m.candidate)
    && n.conversation == m.conversation + (if op.Conversation? then 1 else 0)
    && n.observations == m.observations + (if op.Ingest? || op.Repair? then 1 else 0)
    && n.revision == m.revision + (if op.Repair? then 2 else if op.Ingest? || Invalidates(m, op) then 1 else 0)
  }

  /** Entry i rests, however indirectly, on one that the operation hits. */
  ghost predicate RestsOnHit(nodes: seq<Node>, op: Operation, i: nat) {
    exists r: nat :: Hit(nodes, op, r) && Reaches(Dependencies(nodes), i, r)
  }

  /** Content is kept; staleness grows by exactly what rests on a hit; frontiers move where staleness is new or direct. */
  ghost predicate EntryAfter(nodes: seq<Node>, m: Memory, op: Operation, n: Memory, i: nat)
    requires i < |m.entries| && i < |n.entries|
  {
    var was, now := m.entries[i], n.entries[i];
    && now.value == was.value && now.source == was.source
    && now.basis == (if (op.HostInvalidate? || op.RejectUnprovenRepair?) && Hit(nodes, op, i)
                     then Basis(None, None, None, true) else was.basis)
    && (now.stale <==> was.stale || (Invalidates(m, op) && RestsOnHit(nodes, op, i)))
    && now.staleThrough ==
       if Invalidates(m, op) && now.stale && (!was.stale || Outlived(now.basis, n)) then n.observations
       else was.staleThrough
  }

  // ----- staleness reached through dependencies -----

  lemma ReachesStale(nodes: seq<Node>, m: Memory, i: nat, r: nat)
    requires ValidNodes(nodes) && Inv(nodes, m) && r < |nodes| && m.entries[r].stale
    requires Reaches(Dependencies(nodes), i, r)
    ensures i < |nodes| && m.entries[i].stale
  {
    var g := Dependencies(nodes);
    var p: seq<nat> :| Walk(g, p) && p[0] == i && Last(p) == r;
    var stale := set j | j in Below(|nodes|) && m.entries[j].stale;
    forall a: nat, b: nat | b in stale && Edge(g, a, b) ensures a in stale {}
    ClosedBackward(g, stale, p);
  }

  /** The roots of a recomputation are what was stale and what the change hit. */
  lemma StaleAfterChange(nodes: seq<Node>, m: Memory, op: Operation, e: Memory, i: nat)
    requires ValidNodes(nodes) && Inv(nodes, m) && |e.entries| == |nodes| && i < |nodes|
    requires forall r: nat :: r < |nodes| ==> e.entries[r].stale == m.entries[r].stale
    requires forall r: nat :: r < |nodes| && !m.entries[r].stale ==> (Direct(e, r) <==> Hit(nodes, op, r))
    ensures Affected(nodes, e, i) <==> m.entries[i].stale || RestsOnHit(nodes, op, i)
  {
    if Affected(nodes, e, i) {
      var r: nat :| Root(e, r) && Reaches(Dependencies(nodes), i, r);
      if m.entries[r].stale {
        ReachesStale(nodes, m, i, r);
      }
    }
    if m.entries[i].stale {
      AffectedRoot(nodes, e, i);
    }
    if RestsOnHit(nodes, op, i) {
      var r: nat :| Hit(nodes, op, r) && Reaches(Dependencies(nodes), i, r);
      assert Root(e, r);
    }
  }

  lemma FreshBasis(nodes: seq<Node>, m: Memory, r: nat)
    requires ValidNodes(nodes) && Inv(nodes, m) && r < |nodes| && !m.entries[r].stale
    ensures var b := m.entries[r].basis;
            && !b.unknown
            && b.file == (if nodes[r].file.Some? then Some((nodes[r].file.value, m.files[nodes[r].file.value].value)) else None)
            && b.candidate == (if nodes[r].candidate then Some(m.candidate) else None)
            && b.conversation == (if nodes[r].conversation then Some(m.conversation) else None)
            && (nodes[r].file.Some? ==> nodes[r].file.value < 4 && m.files[nodes[r].file.value].Some?)
  {
    assert FreshEntry(m, r) && Covers(nodes[r], m.entries[r].basis);
  }

  function Distrusted(m: Memory, k: nat): Memory
    requires k < |m.entries|
  {
    m.(entries := m.entries[k := m.entries[k].(basis := Basis(None, None, None, true))], revision := m.revision + 1)
  }

  /** The memory an operation recomputes, with only the environment or one basis changed. */
  ghost function Changed(nodes: seq<Node>, m: Memory, op: Operation): Memory
    requires Inv(nodes, m)
  {
    match op
    case File(index, content) => m.(files := m.files[index % 4 := content], revision := m.revision + 1)
    case Candidate(value) => m.(candidate := value, revision := m.revision + 1)
    case Conversation => m.(conversation := m.conversation + 1, revision := m.revision + 1)
    case HostInvalidate(index) => Distrusted(m, index % |nodes|)
    case RejectUnprovenRepair(index) => Distrusted(m, index % |nodes|)
    case _ => m
  }

  lemma ChangedIsStep(nodes: seq<Node>, m: Memory, op: Operation)
    requires Inv(nodes, m) && Invalidates(m, op)
    ensures Step(nodes, m, op) == Recomputed(nodes, Changed(nodes, m, op))
  {
    hide Recomputed;
  }

  lemma ChangedHits(nodes: seq<Node>, m: Memory, op: Operation, r: nat)
    requires ValidNodes(nodes) && Inv(nodes, m) && Invalidates(m, op) && r < |nodes|
    ensures var e := Changed(nodes, m, op);
            && e.entries[r].stale == m.entries[r].stale
            && (!m.entries[r].stale ==> (Direct(e, r) <==> Hit(nodes, op, r)))
            && (Direct(e, r) <==> Outlived(e.entries[r].basis, e))
  {
    if !m.entries[r].stale {
      FreshBasis(nodes, m, r);
    }
  }

  /**
    Every operation but a repair: the environment it leaves, and for every entry its content, its flag
    and its frontier.
   */
  lemma OperationIsExact(nodes: seq<Node>, m: Memory, op: Operation, i: nat)
    requires ValidNodes(nodes) && Inv(nodes, m) && i < |nodes| && !op.Repair?
    ensures var n := Step(nodes, m, op);
            EnvironmentAfter(m, op, n) && |n.entries| == |nodes| && EntryAfter(nodes, m, op, n, i)
  {
    if Invalidates(m, op) {
      var e := Changed(nodes, m, op);
      ChangedIsStep(nodes, m, op);
      forall r: nat | r < |nodes|
        ensures e.entries[r].stale == m.entries[r].stale
        ensures !m.entries[r].stale ==> (Direct(e, r) <==> Hit(nodes, op, r))
        ensures Direct(e, r) <==> Outlived(e.entries[r].basis, e)
      {
        ChangedHits(nodes, m, op, r);
      }
      StaleAfterChange(nodes, m, op, e, i);
      hide Inv, Affected, RestsOnHit, Outlived, Direct, Step;
    }
  }

  /** What a repair needs: everything the entry rests on directly is fresh, and its tracked file exists. */
  ghost predicate Sound(nodes: seq<Node>, m: Memory, k: nat)
    requires Inv(nodes, m) && k < |nodes|
  {
    && (forall d | d in nodes[k].dependencies && d < |nodes| :: !m.entries[d].stale)
    && (nodes[k].file.Some? ==> nodes[k].file.value < 4 && m.files[nodes[k].file.value].Some?)
  }

  /**
    A repair: one observation more and the entry rests on it and on the present environment; it stays
    stale exactly when something below it is stale or its file is gone; other entries keep all but
    the frontier, which moves where their own basis is outlived.
   */
  lemma RepairIsExactEverywhere(nodes: seq<Node>, m: Memory, op: Operation, j: nat)
    requires ValidNodes(nodes) && Inv(nodes, m) && j < |nodes| && op.Repair?
    ensures var n := Step(nodes, m, op);
            var k, was, now := op.index % |nodes|, m.entries[j], n.entries[j];
            && EnvironmentAfter(m, op, n) && |n.entries| == |nodes|
            && (if j == k then
                  && now.value == op.value && now.source == n.observations
                  && (now.stale <==> !Sound(nodes, m, k))
                  && now.staleThrough == (if now.stale then n.observations else 0)
                  && !now.basis.unknown
                  && (nodes[k].file.None? ==> now.basis.file.None?)
                  && (nodes[k].file.Some? ==>
                        now.basis.file == Some((nodes[k].file.value, if n.files[nodes[k].file.value].Some?
                                                                     then n.files[nodes[k].file.value].value else 0)))
                  && now.basis.candidate == (if nodes[k].candidate then Some(n.candidate) else None)
                  && now.basis.conversation == (if nodes[k].conversation then Some(n.conversation) else None)
                else
                  && now.value == was.value && now.source == was.source && now.basis == was.basis && now.stale == was.stale
                  && now.staleThrough == if was.stale && Outlived(was.basis, n) then n.observations else was.staleThrough)
  {
    var k := op.index % |nodes|;
    var r := Repaired(nodes, m, k, op.value);
    RepairAffects(nodes, m, k, op.value, r);
    hide Affected;
  }

  /** Before the first operation every entry is fresh, rests on the present environment and covers its node. */
  lemma StartsFresh(nodes: seq<Node>, i: nat)
    requires |nodes| > 0 && ValidNodes(nodes) && i < |nodes|
    ensures var m := RunOf(nodes, []);
            && m.files == [Some(1), Some(2), Some(3), Some(4)] && m.candidate == m.conversation == m.observations == 1
            && m.revision == 2 && !m.entries[i].stale && m.entries[i].staleThrough == 0
            && m.entries[i].value == 1 && m.entries[i].source == 1 && !Outlived(m.entries[i].basis, m)
  {
  }
}
