/**
  Working-memory invalidation.  Entries depend on files, a candidate, a
  conversation and on each other; staleness spreads to dependents, is sticky,
  and carries the observation frontier at which it arose.
 */
module Invalidation {
  import opened Common
  import opened Graph

  datatype Node = Node(dependencies: seq<nat>, file: Option<nat>, candidate: bool, conversation: bool)

  /** What an entry's content was derived from. */
  datatype Basis = Basis(file: Option<(nat, nat)>, candidate: Option<nat>, conversation: Option<nat>, unknown: bool)

  datatype Entry = Entry(basis: Basis, stale: bool, staleThrough: nat, value: nat, source: nat)

  datatype Memory = Memory(files: seq<Option<nat>>, candidate: nat, conversation: nat,
                           revision: nat, observations: nat, entries: seq<Entry>)

  const FILES := 4

  function Dependencies(nodes: seq<Node>): Graph {
    seq(|nodes|, i requires 0 <= i < |nodes| => nodes[i].dependencies)
  }

  /** The case validation: known files, dependencies in range, none on itself, strictly ascending. */
  ghost predicate ValidNodes(nodes: seq<Node>) {
    forall i | 0 <= i < |nodes| ::
      && (nodes[i].file.Some? ==> nodes[i].file.value < FILES)
      && (forall d | d in nodes[i].dependencies :: d < |nodes| && d != i)
      && (forall j | 0 < j < |nodes[i].dependencies| :: nodes[i].dependencies[j - 1] < nodes[i].dependencies[j])
  }

  function CaptureBasis(node: Node, m: Memory): Basis
    requires |m.files| == FILES
  {
    Basis(
      if node.file.Some? then
        var index := node.file.value % FILES;
        Some((index, if m.files[index].Some? then m.files[index].value else 0))
      else None,
      if node.candidate then Some(m.candidate) else None,
      if node.conversation then Some(m.conversation) else None,
      false)
  }

  predicate Holds(b: Basis, m: Memory) {
    && !b.unknown
    && (b.file.Some? ==> b.file.value.0 < |m.files| && m.files[b.file.value.0] == Some(b.file.value.1))
    && (b.candidate.Some? ==> b.candidate.value == m.candidate)
    && (b.conversation.Some? ==> b.conversation.value == m.conversation)
  }

  predicate Direct(m: Memory, i: nat)
    requires i < |m.entries|
  {
    !Holds(m.entries[i].basis, m)
  }

  /** An entry staleness starts from: it was stale already, or its basis no longer holds. */
  predicate Root(m: Memory, i: nat) {
    i < |m.entries| && (m.entries[i].stale || Direct(m, i))
  }

  /** The meaning of a recomputation: the entry rests, however indirectly, on a root. */
  ghost predicate Affected(nodes: seq<Node>, m: Memory, i: nat) {
    exists r: nat :: Root(m, r) && Reaches(Dependencies(nodes), i, r)
  }

  function Refresh(m: Memory, i: nat, affected: bool): Entry
    requires i < |m.entries|
  {
    var e := m.entries[i];
    if !affected then e
    else e.(stale := true, staleThrough := if !e.stale || Direct(m, i) then m.observations else e.staleThrough)
  }

  ghost function Recomputed(nodes: seq<Node>, m: Memory): (r: Memory)
    ensures |r.entries| == |m.entries|
  {
    m.(entries := seq(|m.entries|, i requires 0 <= i < |m.entries| => Refresh(m, i, Affected(nodes, m, i))))
  }

  // ----- the affected entries are the least closed set over the roots -----

  ghost predicate ClosedOverRoots(nodes: seq<Node>, m: Memory, c: set<nat>) {
    && (forall r: nat :: Root(m, r) ==> r in c)
    && (forall i: nat, j: nat :: j in c && Edge(Dependencies(nodes), i, j) ==> i in c)
  }

  lemma AffectedRoot(nodes: seq<Node>, m: Memory, i: nat)
    requires Root(m, i)
    ensures Affected(nodes, m, i)
  {
    ReachesSelf(Dependencies(nodes), i);
  }

  lemma AffectedDependent(nodes: seq<Node>, m: Memory, i: nat, d: nat)
    requires Affected(nodes, m, d) && Edge(Dependencies(nodes), i, d)
    ensures Affected(nodes, m, i)
  {
    var r: nat :| Root(m, r) && Reaches(Dependencies(nodes), d, r);
    EdgeThenReaches(Dependencies(nodes), i, d, r);
  }

  lemma AffectedLeast(nodes: seq<Node>, m: Memory, c: set<nat>, i: nat)
    requires ClosedOverRoots(nodes, m, c) && Affected(nodes, m, i)
    ensures i in c
  {
    var g := Dependencies(nodes);
    var r: nat :| Root(m, r) && Reaches(g, i, r);
    var p: seq<nat> :| Walk(g, p) && p[0] == i && Last(p) == r;
    ClosedBackward(g, c, p);
  }

  /** Recognising the affected set: any closed set over the roots whose members are all affected. */
  lemma AffectedIs(nodes: seq<Node>, m: Memory, c: set<nat>)
    requires ClosedOverRoots(nodes, m, c) && forall i | i in c :: Affected(nodes, m, i)
    ensures forall i: nat :: i in c <==> Affected(nodes, m, i)
  {
    forall i: nat | Affected(nodes, m, i) ensures i in c { AffectedLeast(nodes, m, c, i); }
  }

  /** A second recomputation changes nothing, frontiers included. */
  lemma RecomputeIdempotent(nodes: seq<Node>, m: Memory)
    ensures Recomputed(nodes, Recomputed(nodes, m)) == Recomputed(nodes, m)
  {
    var n := Recomputed(nodes, m);
    var n' := Recomputed(nodes, n);
    forall i | 0 <= i < |n.entries| ensures n'.entries[i] == n.entries[i] {
      assert Direct(n, i) == Direct(m, i);
      assert Affected(nodes, n, i) <==> Affected(nodes, m, i) by {
        if Affected(nodes, n, i) {
          var r: nat :| Root(n, r) && Reaches(Dependencies(nodes), i, r);
          assert Direct(n, r) == Direct(m, r);
          assert Affected(nodes, m, r) by { if Root(m, r) { AffectedRoot(nodes, m, r); } }
          AffectedVia(nodes, m, i, r);
        }
        if Affected(nodes, m, i) {
          AffectedRoot(nodes, n, i);
        }
      }
    }
  }

  lemma AffectedVia(nodes: seq<Node>, m: Memory, i: nat, j: nat)
    requires Affected(nodes, m, j) && Reaches(Dependencies(nodes), i, j)
    ensures Affected(nodes, m, i)
  {
    var g := Dependencies(nodes);
    var r: nat :| Root(m, r) && Reaches(g, j, r);
    var p: seq<nat> :| Walk(g, p) && p[0] == i && Last(p) == j;
    var q: seq<nat> :| Walk(g, q) && q[0] == j && Last(q) == r;
    WalkConcat(g, p, q);
  }

  // ----- operations and runs -----

  datatype Operation =
    | File(index: nat, content: Option<nat>)
    | Candidate(value: nat)
    | Conversation
    | Ingest(value: nat)
    | Repair(index: nat, value: nat)
    | HostInvalidate(index: nat)
    | RejectUnprovenRepair(index: nat)
    /** Rejected requests, reopening and reading: the memory is left alone. */
    | Other

  function Initial(nodes: seq<Node>): Memory {
    var m := Memory([Some(1), Some(2), Some(3), Some(4)], 1, 1, 1, 1, []);
    m.(revision := 2,
       entries := seq(|nodes|, i requires 0 <= i < |nodes| => Entry(CaptureBasis(nodes[i], m), false, 0, 1, 1)))
  }

  function Bump(m: Memory): Memory {
    m.(revision := m.revision + 1)
  }

  /** The repaired entry before staleness is recomputed. */
  function Repaired(nodes: seq<Node>, m: Memory, i: nat, value: nat): Memory
    requires i < |m.entries| == |nodes| && |m.files| == FILES
  {
    var seen := Bump(m.(observations := m.observations + 1));
    Bump(seen.(entries := seen.entries[i := Entry(CaptureBasis(nodes[i], seen), false, 0, value, seen.observations)]))
  }

  function Invalidated(m: Memory, i: nat): Memory
    requires i < |m.entries|
  {
    Bump(m.(entries := m.entries[i := m.entries[i].(basis := Basis(None, None, None, true))]))
  }

  ghost function Step(nodes: seq<Node>, m: Memory, op: Operation): Memory
    requires |nodes| > 0 && |m.entries| == |nodes| && |m.files| == FILES
  {
    match op
    case File(index, value) =>
      var k := index % FILES;
      if m.files[k] != value then Recomputed(nodes, Bump(m.(files := m.files[k := value]))) else m
    case Candidate(value) =>
      if m.candidate != value then Recomputed(nodes, Bump(m.(candidate := value))) else m
    case Conversation => Recomputed(nodes, Bump(m.(conversation := m.conversation + 1)))
    case Ingest(_) => Bump(m.(observations := m.observations + 1))
    case Repair(index, value) => Recomputed(nodes, Repaired(nodes, m, index % |nodes|, value))
    case HostInvalidate(index) => Recomputed(nodes, Invalidated(m, index % |nodes|))
    case RejectUnprovenRepair(index) => Recomputed(nodes, Invalidated(m, index % |nodes|))
    case Other => m
  }

  ghost predicate FreshEntry(m: Memory, i: nat)
    requires i < |m.entries|
  {
    var e := m.entries[i];
    Holds(e.basis, m) && e.staleThrough == 0 && e.source <= m.observations
  }

  ghost predicate StaleEntry(m: Memory, i: nat)
    requires i < |m.entries|
  {
    m.entries[i].source <= m.entries[i].staleThrough <= m.observations
  }

  /** A basis is unknown, or it covers exactly what the node declares. */
  predicate Covers(node: Node, b: Basis) {
    b.unknown
    || (&& (b.file.Some? <==> node.file.Some?)
        && (b.file.Some? ==> b.file.value.0 == node.file.value % FILES)
        && (b.candidate.Some? <==> node.candidate)
        && (b.conversation.Some? <==> node.conversation))
  }

  /** What holds after every operation. */
  ghost predicate Inv(nodes: seq<Node>, m: Memory) {
    && |nodes| > 0 && |m.entries| == |nodes| && |m.files| == FILES
    && (forall i: nat, d: nat :: Edge(Dependencies(nodes), i, d) && d < |nodes| && m.entries[d].stale ==> m.entries[i].stale)
    && (forall i | 0 <= i < |nodes| ::
          Covers(nodes[i], m.entries[i].basis) && if m.entries[i].stale then StaleEntry(m, i) else FreshEntry(m, i))
  }

  /** All that a recomputation needs to establish the invariant. */
  ghost predicate Ready(nodes: seq<Node>, m: Memory) {
    && |nodes| > 0 && |m.entries| == |nodes| && |m.files| == FILES
    && forall i | 0 <= i < |nodes| ::
         m.entries[i].source <= m.observations && Covers(nodes[i], m.entries[i].basis)
         && (if m.entries[i].stale then StaleEntry(m, i) else m.entries[i].staleThrough == 0)
  }

  lemma RecomputeEstablishes(nodes: seq<Node>, m: Memory)
    requires Ready(nodes, m)
    ensures Inv(nodes, Recomputed(nodes, m))
  {
    var n := Recomputed(nodes, m);
    forall i: nat, d: nat | Edge(Dependencies(nodes), i, d) && d < |nodes| && n.entries[d].stale
      ensures n.entries[i].stale
    {
      if !Affected(nodes, m, d) {
        AffectedRoot(nodes, m, d);
      }
      AffectedDependent(nodes, m, i, d);
    }
    forall i | 0 <= i < |nodes| ensures if n.entries[i].stale then StaleEntry(n, i) else FreshEntry(n, i) {
      if Root(m, i) {
        AffectedRoot(nodes, m, i);
      }
    }
  }

  lemma StepKeepsInvariant(nodes: seq<Node>, m: Memory, op: Operation)
    requires Inv(nodes, m)
    ensures Inv(nodes, Step(nodes, m, op))
  {
    hide Recomputed, Edge;
    match op
    case File(index, value) =>
      RecomputeEstablishes(nodes, Bump(m.(files := m.files[index % FILES := value])));
    case Candidate(value) =>
      RecomputeEstablishes(nodes, Bump(m.(candidate := value)));
    case Conversation =>
      RecomputeEstablishes(nodes, Bump(m.(conversation := m.conversation + 1)));
    case Ingest(_) =>
    case Repair(index, value) =>
      RecomputeEstablishes(nodes, Repaired(nodes, m, index % |nodes|, value));
    case HostInvalidate(index) =>
      RecomputeEstablishes(nodes, Invalidated(m, index % |nodes|));
    case RejectUnprovenRepair(index) =>
      RecomputeEstablishes(nodes, Invalidated(m, index % |nodes|));
    case Other =>
  }

  lemma InitialInvariant(nodes: seq<Node>)
    requires |nodes| > 0 && ValidNodes(nodes)
    ensures Inv(nodes, Initial(nodes))
  {
  }

  ghost function RunOf(nodes: seq<Node>, ops: seq<Operation>): (m: Memory)
    requires |nodes| > 0 && ValidNodes(nodes)
    ensures Inv(nodes, m)
  {
    if ops == [] then InitialInvariant(nodes); Initial(nodes)
    else
      StepKeepsInvariant(nodes, RunOf(nodes, Init(ops)), Last(ops));
      Step(nodes, RunOf(nodes, Init(ops)), Last(ops))
  }

  /** Over every run a fresh entry rests on exactly what a capture taken now would record, its file present. */
  lemma FreshMatchesEnvironment(nodes: seq<Node>, ops: seq<Operation>, i: nat)
    requires |nodes| > 0 && ValidNodes(nodes) && i < |nodes|
    ensures var m := RunOf(nodes, ops);
            !m.entries[i].stale ==>
              && m.entries[i].basis == CaptureBasis(nodes[i], m)
              && (nodes[i].file.Some? ==> m.files[nodes[i].file.value % FILES].Some?)
              && forall d | d in nodes[i].dependencies :: !m.entries[d].stale
  {
    var m := RunOf(nodes, ops);
    hide RunOf;
    if !m.entries[i].stale {
      assert FreshEntry(m, i) && Covers(nodes[i], m.entries[i].basis);
      forall d | d in nodes[i].dependencies ensures !m.entries[d].stale {
        assert Edge(Dependencies(nodes), i, d);
      }
    }
  }

  // ----- repairs -----

  /** Nothing the repaired entry rests on directly is stale, and its tracked file exists. */
  ghost predicate Repairable(nodes: seq<Node>, m: Memory, i: nat)
    requires Inv(nodes, m) && i < |nodes|
  {
    && (forall d | d in nodes[i].dependencies && d < |nodes| :: !m.entries[d].stale)
    && (nodes[i].file.Some? ==> m.files[nodes[i].file.value % FILES].Some?)
  }

  lemma RepairRoots(nodes: seq<Node>, m: Memory, i: nat, value: nat, r: Memory)
    requires ValidNodes(nodes) && Inv(nodes, m) && i < |nodes| && r == Repaired(nodes, m, i, value)
    ensures forall j: nat :: j != i ==> (Root(r, j) <==> j < |nodes| && m.entries[j].stale)
    ensures Root(r, i) <==> nodes[i].file.Some? && m.files[nodes[i].file.value % FILES].None?
  {
  }

  /** The entries expected to be stale after repairing i. */
  ghost predicate StaleAfterRepair(nodes: seq<Node>, m: Memory, i: nat, j: nat)
    requires Inv(nodes, m) && i < |nodes|
  {
    j < |nodes| && if j == i then !Repairable(nodes, m, i) else m.entries[j].stale
  }

  lemma RepairClosed(nodes: seq<Node>, m: Memory, i: nat, k: nat, j: nat)
    requires ValidNodes(nodes) && Inv(nodes, m) && i < |nodes|
    requires StaleAfterRepair(nodes, m, i, j) && Edge(Dependencies(nodes), k, j)
    ensures StaleAfterRepair(nodes, m, i, k)
  {
  }

  lemma RepairMemberAffected(nodes: seq<Node>, m: Memory, i: nat, value: nat, r: Memory, j: nat)
    requires ValidNodes(nodes) && Inv(nodes, m) && i < |nodes| && r == Repaired(nodes, m, i, value)
    requires StaleAfterRepair(nodes, m, i, j)
    ensures Affected(nodes, r, j)
  {
    RepairRoots(nodes, m, i, value, r);
    if Root(r, j) {
      AffectedRoot(nodes, r, j);
    } else {
      var d :| d in nodes[i].dependencies && d < |nodes| && m.entries[d].stale;
      AffectedRoot(nodes, r, d);
      AffectedDependent(nodes, r, i, d);
    }
  }

  lemma RepairRootExpected(nodes: seq<Node>, m: Memory, i: nat, value: nat, r: Memory, j: nat)
    requires ValidNodes(nodes) && Inv(nodes, m) && i < |nodes| && r == Repaired(nodes, m, i, value) && Root(r, j)
    ensures StaleAfterRepair(nodes, m, i, j)
  {
  }

  lemma RepairAffects(nodes: seq<Node>, m: Memory, i: nat, value: nat, r: Memory)
    requires ValidNodes(nodes) && Inv(nodes, m) && i < |nodes| && r == Repaired(nodes, m, i, value)
    ensures forall j: nat :: Affected(nodes, r, j) <==> StaleAfterRepair(nodes, m, i, j)
  {
    var c := set j | j in Below(|nodes|) && StaleAfterRepair(nodes, m, i, j);
    forall j: nat ensures j in c <==> StaleAfterRepair(nodes, m, i, j) {}
    forall k: nat, j: nat | j in c && Edge(Dependencies(nodes), k, j) ensures k in c { RepairClosed(nodes, m, i, k, j); }
    forall j | j in c ensures Affected(nodes, r, j) { RepairMemberAffected(nodes, m, i, value, r, j); }
    forall j: nat | Root(r, j) ensures j in c { RepairRootExpected(nodes, m, i, value, r, j); }
    AffectedIs(nodes, r, c);
  }

  /**
    A repair makes its entry fresh exactly when it is repairable, leaves every other stale flag as
    it was, and changes no other entry's content, source or basis.
   */
  lemma RepairIsExact(nodes: seq<Node>, m: Memory, index: nat, value: nat)
    requires ValidNodes(nodes) && Inv(nodes, m)
    ensures var n := Step(nodes, m, Repair(index, value));
            var i := index % |nodes|;
            && (!n.entries[i].stale <==> Repairable(nodes, m, i))
            && n.entries[i].value == value && n.entries[i].source == n.observations == m.observations + 1
            && forall j | 0 <= j < |nodes| && j != i ::
                 n.entries[j] == m.entries[j].(staleThrough := n.entries[j].staleThrough)
  {
    var i := index % |nodes|;
    RepairAffects(nodes, m, i, value, Repaired(nodes, m, i, value));
  }

  // ----- sticky staleness -----

  ghost predicate RepairsEntry(nodes: seq<Node>, op: Operation, i: nat)
    requires |nodes| > 0
  {
    op.Repair? && op.index % |nodes| == i
  }

  /** Without a repair of that entry, stale stays stale, whatever its file does meanwhile. */
  lemma {:induction false} StaleIsPermanent(nodes: seq<Node>, ops: seq<Operation>, a: nat, b: nat, i: nat)
    requires |nodes| > 0 && ValidNodes(nodes) && a <= b <= |ops| && i < |nodes|
    requires RunOf(nodes, ops[..a]).entries[i].stale
    requires forall k | a <= k < b :: !RepairsEntry(nodes, ops[k], i)
    ensures var earlier, now := RunOf(nodes, ops[..a]).entries[i], RunOf(nodes, ops[..b]).entries[i];
            now.stale && now.value == earlier.value && now.source == earlier.source
            && earlier.staleThrough <= now.staleThrough
  {
    if a < b {
      StaleIsPermanent(nodes, ops, a, b - 1, i);
      assert Init(ops[..b]) == ops[..b - 1] && Last(ops[..b]) == ops[b - 1];
      StaleStep(nodes, RunOf(nodes, ops[..b - 1]), ops[b - 1], i);
    }
  }

  lemma StaleStep(nodes: seq<Node>, m: Memory, op: Operation, i: nat)
    requires ValidNodes(nodes) && Inv(nodes, m) && i < |nodes| && m.entries[i].stale && !RepairsEntry(nodes, op, i)
    ensures var n := Step(nodes, m, op);
            n.entries[i].stale && n.entries[i].value == m.entries[i].value && n.entries[i].source == m.entries[i].source
            && m.entries[i].staleThrough <= n.entries[i].staleThrough
  {
  }

  /** After a host invalidation the entry is stale through every observation so far, its own source included. */
  lemma InvalidationCoversEvidence(nodes: seq<Node>, m: Memory, index: nat)
    requires Inv(nodes, m)
    ensures var n := Step(nodes, m, HostInvalidate(index));
            var e := n.entries[index % |nodes|];
            e.stale && e.source <= e.staleThrough == n.observations
  {
    var i := index % |nodes|;
    var v := Invalidated(m, i);
    AffectedRoot(nodes, v, i);
    assert if m.entries[i].stale then StaleEntry(m, i) else FreshEntry(m, i);
  }
}
