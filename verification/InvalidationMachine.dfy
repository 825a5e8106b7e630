/**
  The two ways staleness is computed.  The checker drains a queue over the
  reverse graph; production relaxes entries in place, pass after pass, at most
  as many passes as there are entries.  Both compute `Recomputed`.
 */
module InvalidationMachine {
  import opened Common
  import opened Graph
  import opened Invalidation

  class WorkingMemory {
    var files: seq<Option<nat>>
    var candidate: nat
    var conversation: nat
    var revision: nat
    var observations: nat
    var entries: seq<Entry>

    function Value(): Memory
      reads this
    {
      Memory(files, candidate, conversation, revision, observations, entries)
    }

    constructor (nodes: seq<Node>)
      ensures Value() == Initial(nodes)
    {
      files, candidate, conversation, revision, observations := [Some(1), Some(2), Some(3), Some(4)], 1, 1, 0, 0;
      entries := [];
      new;
      revision := 1;
      observations := 1;
      for i := 0 to |nodes|
        invariant Value() == Memory([Some(1), Some(2), Some(3), Some(4)], 1, 1, 1, 1, Initial(nodes).entries[..i])
      {
        var basis := CaptureBasis(nodes[i], Value());
        assert basis == Initial(nodes).entries[i].basis;
        entries := entries + [Entry(basis, false, 0, 1, 1)];
      }
      revision := revision + 1;
    }

    /** Drains the queue of roots over the reverse graph, then marks what was reached. */
    method Recompute(nodes: seq<Node>)
      requires ValidNodes(nodes) && |entries| == |nodes|
      modifies this`entries
      ensures Value() == Recomputed(nodes, old(Value()))
    {
      ghost var m := Value();
      var now := Value();
      var previous := seq(|entries|, i requires 0 <= i < |now.entries| => now.entries[i].stale);
      var direct := seq(|entries|, i requires 0 <= i < |now.entries| => Direct(now, i));
      var reverse := Reversed(nodes);
      var queue: seq<nat> := [];
      for i := 0 to |nodes|
        invariant forall r: nat :: r in queue <==> r < i && Root(m, r)
      {
        if previous[i] || direct[i] {
          queue := queue + [i];
        }
      }
      var stale := Spread(nodes, m, reverse, queue);
      MarkStale(previous, direct, stale);
      assert entries == Recomputed(nodes, m).entries;
    }

    method MarkStale(previous: seq<bool>, direct: seq<bool>, stale: set<nat>)
      requires |previous| == |direct| == |entries|
      requires forall i | 0 <= i < |entries| :: previous[i] == entries[i].stale && direct[i] == Direct(Value(), i)
      modifies this`entries
      ensures |entries| == |old(entries)|
      ensures forall i | 0 <= i < |entries| :: entries[i] == Refresh(old(Value()), i, i in stale)
    {
      ghost var m := Value();
      for i := 0 to |entries|
        invariant |entries| == |m.entries| && entries[i..] == m.entries[i..]
        invariant forall k | 0 <= k < i :: entries[k] == Refresh(m, k, k in stale)
      {
        assert entries[i] == m.entries[i] by { assert entries[i..][0] == m.entries[i..][0]; }
        if i in stale {
          if !previous[i] || direct[i] {
            entries := entries[i := entries[i].(staleThrough := observations)];
          }
          entries := entries[i := entries[i].(stale := true)];
        }
      }
    }

    method ChangeFile(nodes: seq<Node>, index: nat, content: Option<nat>)
      requires ValidNodes(nodes) && Inv(nodes, Value())
      modifies this
      ensures Value() == Step(nodes, old(Value()), File(index, content)) && Inv(nodes, Value())
    {
      StepKeepsInvariant(nodes, Value(), File(index, content));
      var k := index % FILES;
      var changed := files[k] != content;
      files := files[k := content];
      if changed {
        revision := revision + 1;
        Recompute(nodes);
      }
    }

    method ChangeCandidate(nodes: seq<Node>, value: nat)
      requires ValidNodes(nodes) && Inv(nodes, Value())
      modifies this
      ensures Value() == Step(nodes, old(Value()), Candidate(value)) && Inv(nodes, Value())
    {
      StepKeepsInvariant(nodes, Value(), Candidate(value));
      var changed := candidate != value;
      candidate := value;
      if changed {
        revision := revision + 1;
        Recompute(nodes);
      }
    }

    method AdvanceConversation(nodes: seq<Node>)
      requires ValidNodes(nodes) && Inv(nodes, Value())
      modifies this
      ensures Value() == Step(nodes, old(Value()), Conversation) && Inv(nodes, Value())
    {
      StepKeepsInvariant(nodes, Value(), Conversation);
      conversation := conversation + 1;
      revision := revision + 1;
      Recompute(nodes);
    }

    method IngestObservation(nodes: seq<Node>, value: nat)
      requires Inv(nodes, Value())
      modifies this
      ensures Value() == Step(nodes, old(Value()), Ingest(value)) && Inv(nodes, Value())
    {
      StepKeepsInvariant(nodes, Value(), Ingest(value));
      observations := observations + 1;
      revision := revision + 1;
    }

    method RepairEntry(nodes: seq<Node>, index: nat, value: nat)
      requires ValidNodes(nodes) && Inv(nodes, Value())
      modifies this
      ensures Value() == Step(nodes, old(Value()), Repair(index, value)) && Inv(nodes, Value())
    {
      StepKeepsInvariant(nodes, Value(), Repair(index, value));
      assert |entries| == |nodes| && |files| == FILES;
      hide Inv, Recomputed, CaptureBasis;
      ghost var m := Value();
      var i := index % |entries|;
      observations := observations + 1;
      revision := revision + 1;
      entries := entries[i := Entry(CaptureBasis(nodes[i], Value()), false, 0, value, observations)];
      revision := revision + 1;
      assert Value() == Repaired(nodes, m, i, value);
      Recompute(nodes);
    }

    method InvalidateEntry(nodes: seq<Node>, index: nat)
      requires ValidNodes(nodes) && Inv(nodes, Value())
      modifies this
      ensures Value() == Step(nodes, old(Value()), HostInvalidate(index)) && Inv(nodes, Value())
    {
      StepKeepsInvariant(nodes, Value(), HostInvalidate(index));
      var i := index % |entries|;
      entries := entries[i := entries[i].(basis := Basis(None, None, None, true))];
      revision := revision + 1;
      Recompute(nodes);
    }
  }

  /** Everything reached is affected, and what is reached but not yet spread from is queued. */
  ghost predicate Frontier(nodes: seq<Node>, m: Memory, queue: seq<nat>, stale: set<nat>) {
    && (forall r: nat :: Root(m, r) ==> r in queue || r in stale)
    && (forall i: nat, j: nat :: j in stale && Edge(Dependencies(nodes), i, j) ==> i in queue || i in stale)
    && (forall i | i in queue :: i < |nodes| && Affected(nodes, m, i))
    && (forall i | i in stale :: i < |nodes| && Affected(nodes, m, i))
  }

  lemma FrontierSkip(nodes: seq<Node>, m: Memory, queue: seq<nat>, stale: set<nat>)
    requires Frontier(nodes, m, queue, stale) && queue != [] && queue[0] in stale
    ensures Frontier(nodes, m, queue[1..], stale)
  {
    hide Root, Edge, Affected;
    assert queue == [queue[0]] + queue[1..];
    assert forall i :: i in queue <==> i == queue[0] || i in queue[1..];
  }

  lemma FrontierTake(nodes: seq<Node>, m: Memory, queue: seq<nat>, stale: set<nat>, dependents: seq<nat>)
    requires Frontier(nodes, m, queue, stale) && queue != []
    requires forall i: nat :: i in dependents <==> Edge(Dependencies(nodes), i, queue[0])
    ensures Frontier(nodes, m, queue[1..] + dependents, stale + {queue[0]})
  {
    var index, queue', stale' := queue[0], queue[1..] + dependents, stale + {queue[0]};
    assert forall i :: i in queue <==> i == index || i in queue[1..];
    hide Root, Edge, Affected;
    forall i | i in queue' ensures i < |nodes| && Affected(nodes, m, i) {
      if i in dependents {
        assert index in queue;
        AffectedDependent(nodes, m, i, index);
      }
    }
  }

  lemma FrontierDone(nodes: seq<Node>, m: Memory, stale: set<nat>)
    requires Frontier(nodes, m, [], stale)
    ensures forall i: nat :: i in stale <==> Affected(nodes, m, i)
  {
    AffectedIs(nodes, m, stale);
  }

  lemma FrontierBegin(nodes: seq<Node>, m: Memory, roots: seq<nat>)
    requires |m.entries| == |nodes| && forall r: nat :: r in roots <==> Root(m, r)
    ensures Frontier(nodes, m, roots, {})
  {
    forall r: nat | Root(m, r) ensures Affected(nodes, m, r) { AffectedRoot(nodes, m, r); }
  }

  lemma FrontierBounded(nodes: seq<Node>, m: Memory, queue: seq<nat>, stale: set<nat>)
    requires Frontier(nodes, m, queue, stale) && queue != []
    ensures queue[0] < |nodes|
  {
    assert queue[0] in queue;
  }

  /** From the roots in the queue to everything that rests on them. */
  method Spread(nodes: seq<Node>, ghost m: Memory, reverse: seq<seq<nat>>, roots: seq<nat>) returns (stale: set<nat>)
    requires |m.entries| == |nodes| == |reverse|
    requires forall i: nat, d: nat :: d < |nodes| ==> (i in reverse[d] <==> Edge(Dependencies(nodes), i, d))
    requires forall r: nat :: r in roots <==> Root(m, r)
    ensures forall i: nat :: i in stale <==> Affected(nodes, m, i)
  {
    var queue: seq<nat> := roots;
    stale := {};
    hide Frontier, Root, Edge, Affected;
    FrontierBegin(nodes, m, roots);
    ghost var universe := Below(|nodes|);
    while queue != []
      invariant Frontier(nodes, m, queue, stale)
      decreases universe - stale, |queue|
    {
      var index := queue[0];
      FrontierBounded(nodes, m, queue, stale);
      if index !in stale {
        assert index in universe - stale;
        FrontierTake(nodes, m, queue, stale, reverse[index]);
        stale := stale + {index};
        queue := queue[1..] + reverse[index];
      } else {
        FrontierSkip(nodes, m, queue, stale);
        queue := queue[1..];
      }
    }
    FrontierDone(nodes, m, stale);
  }

  /** `reverse` lists the dependents among the first i nodes, and node i for its first j dependencies. */
  ghost predicate Lists(nodes: seq<Node>, reverse: seq<seq<nat>>, i: nat, j: nat) {
    && |reverse| == |nodes| && i <= |nodes| && (j > 0 ==> i < |nodes| && j <= |nodes[i].dependencies|)
    && forall k: nat, d: nat :: d < |nodes| ==>
         (k in reverse[d] <==>
          (k < i && d in nodes[k].dependencies) || (k == i && j > 0 && d in nodes[i].dependencies[..j]))
  }

  lemma ListsNone(nodes: seq<Node>, reverse: seq<seq<nat>>)
    requires reverse == seq(|nodes|, _ => [])
    ensures Lists(nodes, reverse, 0, 0)
  {
  }

  lemma ListsNext(nodes: seq<Node>, reverse: seq<seq<nat>>, i: nat, j: nat)
    requires ValidNodes(nodes) && Lists(nodes, reverse, i, j) && i < |nodes| && j < |nodes[i].dependencies|
    ensures var d := nodes[i].dependencies[j];
            d < |reverse| && Lists(nodes, reverse[d := reverse[d] + [i]], i, j + 1)
  {
    assert nodes[i].dependencies[j] in nodes[i].dependencies;
    assert nodes[i].dependencies[..j + 1] == nodes[i].dependencies[..j] + [nodes[i].dependencies[j]];
  }

  lemma ListsRow(nodes: seq<Node>, reverse: seq<seq<nat>>, i: nat)
    requires i < |nodes| && Lists(nodes, reverse, i, |nodes[i].dependencies|)
    ensures Lists(nodes, reverse, i + 1, 0)
  {
    assert nodes[i].dependencies[..|nodes[i].dependencies|] == nodes[i].dependencies;
    forall k: nat, d: nat | d < |nodes| ensures k in reverse[d] <==> k < i + 1 && d in nodes[k].dependencies {
      assert k == i && nodes[i].dependencies == [] ==> k !in reverse[d];
    }
  }

  lemma ListsAll(nodes: seq<Node>, reverse: seq<seq<nat>>, i: nat, d: nat)
    requires Lists(nodes, reverse, |nodes|, 0) && d < |nodes|
    ensures i in reverse[d] <==> Edge(Dependencies(nodes), i, d)
  {
    assert i in reverse[d] <==> i < |nodes| && d in nodes[i].dependencies;
    assert Edge(Dependencies(nodes), i, d) <==> i < |nodes| && d in nodes[i].dependencies;
  }

  /** `reverse[d]` lists the nodes that depend on d. */
  method Reversed(nodes: seq<Node>) returns (reverse: seq<seq<nat>>)
    requires ValidNodes(nodes)
    ensures |reverse| == |nodes|
    ensures forall i: nat, d: nat :: d < |nodes| ==> (i in reverse[d] <==> Edge(Dependencies(nodes), i, d))
    ensures forall i: nat, d: nat :: d < |nodes| && i in reverse[d] ==> i < |nodes|
  {
    reverse := seq(|nodes|, _ => []);
    ListsNone(nodes, reverse);
    for i := 0 to |nodes|
      invariant Lists(nodes, reverse, i, 0)
    {
      for j := 0 to |nodes[i].dependencies|
        invariant Lists(nodes, reverse, i, j)
      {
        var d := nodes[i].dependencies[j];
        ListsNext(nodes, reverse, i, j);
        reverse := reverse[d := reverse[d] + [i]];
      }
      ListsRow(nodes, reverse, i);
    }
    forall i: nat, d: nat | d < |nodes| ensures i in reverse[d] <==> Edge(Dependencies(nodes), i, d) {
      ListsAll(nodes, reverse, i, d);
    }
  }
}
