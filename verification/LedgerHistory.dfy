/**
  Results about whole runs: the request lists concatenate to a topological
  order, revisions count up from one, dependencies never form a cycle, and the
  generation fences exactly the changes that alter the governing instructions.
 */
module LedgerHistory {
  import opened Common
  import opened LedgerModel
  import opened LedgerInvariant
  import opened LedgerSteps
  import opened LedgerCapture

  /** Whatever was incorporated, in request order, is a duplicate-free topological order of its dependencies. */
  lemma RequestsAreTopological(start: Model, steps: seq<Step>)
    requires Inv(start)
    ensures var m := RunFrom(start, steps);
            var ids := Ids(Flat(m.requests));
            && NoDup(ids)
            && (forall t, d :: 0 <= t < |ids| && d in DepsOf(m.rows, ids[t]) ==> d in ids[..t])
            && (forall k, v: nat :: 0 <= k < |m.rows| ==>
                  (Listed(m.requests, v, m.rows[k].selected) <==>
                   m.rows[k].state == Incorporated && m.rows[k].invocation == Some(v)))
  {
    hide RunFrom, OrderOk, OrderValid, Flat;
    RunKeepsInvariant(start, steps);
    var m := RunFrom(start, steps);
    var flat := Flat(m.requests);
    forall t, d | 0 <= t < |flat| && d in DepsOf(m.rows, Ids(flat)[t]) ensures d in Ids(flat)[..t] {
      assert DepsBefore(m.rows, flat, t);
    }
    forall k, v: nat | 0 <= k < |m.rows| && Listed(m.requests, v, m.rows[k].selected)
      ensures m.rows[k].state == Incorporated && m.rows[k].invocation == Some(v)
    {
      assert Bound(m.rows, v, m.rows[k].selected);
    }
  }

  // ----- revisions -----

  /** The positions of the rows of `id` among the first k, oldest first. */
  function HistoryOf(rows: seq<Row>, k: nat, id: nat): seq<nat>
    requires k <= |rows|
  {
    if k == 0 then []
    else HistoryOf(rows, k - 1, id) + if rows[k - 1].selected.id == id then [k - 1] else []
  }

  ghost predicate Counted(rows: seq<Row>, k: nat, id: nat, h: seq<nat>)
    requires k <= |rows|
  {
    && (forall i :: 0 <= i < |h| ==> h[i] < k && rows[h[i]].selected == Selection(id, i + 1))
    && (forall j :: 0 <= j < k && rows[j].selected.id == id ==> j in h)
  }

  /** The next row of an identity carries the next revision. */
  lemma NextRevision(rows: seq<Row>, k: nat, h: seq<nat>)
    requires RowsOk(rows) && k < |rows| && Counted(rows, k, rows[k].selected.id, h)
    ensures rows[k].selected.revision == |h| + 1
  {
    var id, r := rows[k].selected.id, rows[k].selected.revision;
    assert RowOk(rows, k);
    if |h| > 0 {
      assert rows[h[|h| - 1]].selected == Selection(id, |h|);
      assert |h| < r;
    }
    if r > 1 {
      var j :| 0 <= j < k && rows[j].selected == Selection(id, r - 1);
      assert j in h;
    }
  }

  lemma {:induction false} HistoryCounts(rows: seq<Row>, k: nat, id: nat)
    requires RowsOk(rows) && k <= |rows|
    ensures Counted(rows, k, id, HistoryOf(rows, k, id))
  {
    hide RowsOk;
    if k > 0 {
      HistoryCounts(rows, k - 1, id);
      var h := HistoryOf(rows, k - 1, id);
      if rows[k - 1].selected.id == id {
        NextRevision(rows, k - 1, h);
      }
    }
  }

  /** The n rows of an identity carry revisions 1 to n in history order, all but the last superseded. */
  lemma RevisionsCountUp(start: Model, steps: seq<Step>, id: nat, i: nat)
    requires Inv(start)
    requires i < |HistoryOf(RunFrom(start, steps).rows, |RunFrom(start, steps).rows|, id)|
    ensures var rows := RunFrom(start, steps).rows;
            var h := HistoryOf(rows, |rows|, id);
            && h[i] < |rows| && rows[h[i]].selected == Selection(id, i + 1)
            && (rows[h[i]].state == Superseded <==> i < |h| - 1)
  {
    hide RunFrom, HistoryOf, RowsOk;
    RunKeepsInvariant(start, steps);
    RevisionsInRows(RunFrom(start, steps).rows, id, i);
  }

  lemma RevisionsInRows(rows: seq<Row>, id: nat, i: nat)
    requires RowsOk(rows) && i < |HistoryOf(rows, |rows|, id)|
    ensures var h := HistoryOf(rows, |rows|, id);
            && h[i] < |rows| && rows[h[i]].selected == Selection(id, i + 1)
            && (rows[h[i]].state == Superseded <==> i < |h| - 1)
  {
    var h := HistoryOf(rows, |rows|, id);
    HistoryCounts(rows, |rows|, id);
    LatestIsCurrent(rows, h[i]);
    hide RowsOk, HistoryOf;
    var last := LatestIndex(rows, id).value;
    assert last in h;
    if i < |h| - 1 {
      assert rows[h[i + 1]].selected.revision > rows[h[i]].selected.revision;
    }
  }

  // ----- dependencies -----

  /** The oldest row of an identity; dependencies always have an older one. */
  function FirstIndex(rows: seq<Row>, id: nat): (k: nat)
    ensures k <= |rows|
    ensures forall j :: 0 <= j < k ==> rows[j].selected.id != id
    ensures k < |rows| ==> rows[k].selected.id == id
  {
    if rows == [] then 0
    else
      var k := FirstIndex(Init(rows), id);
      if k < |rows| - 1 then k
      else if Last(rows).selected.id == id then |rows| - 1
      else |rows|
  }

  /** What the transition itself writes: every revision of an input, and every correction, keeps its dependencies. */
  ghost predicate Authored(rows: seq<Row>) {
    && (forall i, j :: 0 <= i < j < |rows| && rows[i].selected.id == rows[j].selected.id ==>
          rows[i].dependencies == rows[j].dependencies)
    && (forall k :: 0 <= k < |rows| && rows[k].correction.Some? ==>
          rows[k].dependencies == [rows[k].correction.value.id])
  }

  lemma AuthoredRestated(rows: seq<Row>, rows': seq<Row>)
    requires Authored(rows) && |rows'| == |rows|
    requires forall k :: 0 <= k < |rows| ==> rows'[k] == rows[k].(state := rows'[k].state, invocation := rows'[k].invocation)
    ensures Authored(rows')
  {
  }

  lemma AuthoredPushed(rows: seq<Row>, row: Row)
    requires Authored(rows)
    requires var k := LatestIndex(rows, row.selected.id);
             if k.Some? then row.dependencies == rows[k.value].dependencies && row.correction == rows[k.value].correction
             else row.correction.Some? ==> row.dependencies == [row.correction.value.id]
    ensures Authored(rows + [row])
  {
  }

  lemma CommandKeepsAuthored(m: Model, command: Command, author: nat)
    requires Authored(m.rows) && Apply(m, command, author).Ok?
    ensures Authored(Apply(m, command, author).value.rows)
  {
    hide Authored, Admissible, HasPendingDependent, MoveOrder, FirstItemError, ItemDepsIncluded, LatestBefore;
    var n := Mutate(m, command, author).value;
    match command
    case Enqueue(_, _, _) => AuthoredPushed(m.rows, Last(n.rows));
    case Edit(selected, _) =>
      var rows := SetState(m.rows, PendingIndex(m.rows, selected).value, Superseded);
      AuthoredRestated(m.rows, rows);
      LookupSame(m.rows, rows, selected.id);
      AuthoredPushed(rows, Last(n.rows));
    case Hold(_, _) => AuthoredRestated(m.rows, n.rows);
    case Withdraw(_) => AuthoredRestated(m.rows, n.rows);
    case Move(_, _) =>
    case Reorder(_) =>
    case Correct(_, _, _) => AuthoredPushed(m.rows, Last(n.rows));
    case Incorporate(_) => AuthoredRestated(m.rows, n.rows);
  }

  lemma {:induction false} RunKeepsAuthored(start: Model, steps: seq<Step>)
    requires Authored(start.rows)
    ensures Authored(RunFrom(start, steps).rows)
  {
    hide Authored, Apply;
    if steps != [] {
      RunKeepsAuthored(start, Init(steps));
      var m, step := RunFrom(start, Init(steps)), Last(steps);
      if Apply(m, step.command, step.author).Ok? {
        CommandKeepsAuthored(m, step.command, step.author);
      }
    }
  }

  lemma DependencyIsOlder(rows: seq<Row>, a: nat, d: nat)
    requires RowsOk(rows) && Authored(rows) && d in DepsOf(rows, a)
    ensures FirstIndex(rows, d) < FirstIndex(rows, a)
  {
    var k, first := LatestIndex(rows, a).value, FirstIndex(rows, a);
    assert rows[first].dependencies == rows[k].dependencies;
    assert RowOk(rows, first);
    assert HasBefore(rows, first, d);
  }

  lemma {:induction false} PathIsOlder(rows: seq<Row>, p: seq<nat>)
    requires RowsOk(rows) && Authored(rows) && DepPath(rows, p) && |p| > 1
    ensures FirstIndex(rows, Last(p)) < FirstIndex(rows, p[0])
  {
    hide RowsOk, Authored, DepsOf;
    var front := Init(p);
    assert Last(p) in DepsOf(rows, Last(front)) by { assert p[|p| - 2 + 1] in DepsOf(rows, p[|p| - 2]); }
    DependencyIsOlder(rows, Last(front), Last(p));
    if |front| > 1 {
      PathIsOlder(rows, front);
    }
  }

  /** In a run from a ledger that the transition wrote, no input depends, directly or through others, on itself. */
  lemma DependenciesAreAcyclic(start: Model, steps: seq<Step>, p: seq<nat>)
    requires Inv(start) && Authored(start.rows)
    requires DepPath(RunFrom(start, steps).rows, p) && |p| > 1
    ensures Last(p) != p[0]
  {
    hide RunFrom, RowsOk, Authored, DepPath;
    RunKeepsInvariant(start, steps);
    RunKeepsAuthored(start, steps);
    PathIsOlder(RunFrom(start, steps).rows, p);
  }

  // ----- dependencies of ledgers that were read back -----

  /** Where an input stands in the order of incorporation, the pending ones after all requests. */
  function Rank(m: Model, id: nat): Option<nat> {
    var ids := Ids(Flat(m.requests));
    if id in ids then Position(ids, id)
    else if id in m.order then Some(|ids| + Position(m.order, id).value)
    else None
  }

  lemma PositionIs(s: seq<nat>, i: nat)
    requires NoDup(s) && i < |s|
    ensures Position(s, s[i]) == Some(i)
  {
    var p := Position(s, s[i]);
    assert p.value == i;
  }

  lemma PositionBefore(s: seq<nat>, i: nat, x: nat)
    requires i <= |s| && x in s[..i]
    ensures Position(s, x).Some? && Position(s, x).value < i
  {
    var j :| 0 <= j < i && s[j] == x;
    assert x in s;
  }

  lemma IncludedRankFalls(m: Model, a: nat, d: nat)
    requires Inv(m) && a in Ids(Flat(m.requests)) && d in DepsOf(m.rows, a)
    ensures d in Ids(Flat(m.requests)) && Rank(m, d).Some? && Rank(m, d).value < Rank(m, a).value
  {
    var flat := Flat(m.requests);
    var ids := Ids(flat);
    var t :| 0 <= t < |ids| && ids[t] == a;
    assert DepsBefore(m.rows, flat, t);
    hide Inv, Flat, DepsOf;
    PositionIs(ids, t);
    PositionBefore(ids, t, d);
  }

  lemma PendingRankFalls(m: Model, a: nat, d: nat)
    requires Inv(m) && a in m.order && d in DepsOf(m.rows, a)
    ensures Rank(m, a).Some? && Rank(m, d).Some? && Rank(m, d).value < Rank(m, a).value
  {
    var i :| 0 <= i < |m.order| && m.order[i] == a;
    PendingDep(m, i, d);
    IncorporatedInFlat(m.rows, m.requests, a);
    IncorporatedInFlat(m.rows, m.requests, d);
    hide RowsOk, RequestsOk, OrderValid, Flat, DepsOf;
    PositionIs(m.order, i);
    if d in m.order[..i] {
      PositionBefore(m.order, i, d);
    }
  }

  /** Whatever a ranked input rests on is ranked lower. */
  lemma RankFalls(m: Model, a: nat, d: nat)
    requires Inv(m) && Rank(m, a).Some? && d in DepsOf(m.rows, a)
    ensures Rank(m, d).Some? && Rank(m, d).value < Rank(m, a).value
  {
    hide Inv, DepsOf;
    if a in Ids(Flat(m.requests)) {
      IncludedRankFalls(m, a, d);
    } else {
      PendingRankFalls(m, a, d);
    }
  }

  lemma {:induction false} PathRankFalls(m: Model, p: seq<nat>)
    requires Inv(m) && DepPath(m.rows, p) && |p| > 1 && Rank(m, p[0]).Some?
    ensures Rank(m, Last(p)).Some? && Rank(m, Last(p)).value < Rank(m, p[0]).value
  {
    hide Inv, Rank, DepsOf;
    var front := Init(p);
    assert Last(p) in DepsOf(m.rows, Last(front)) by { assert p[|p| - 2 + 1] in DepsOf(m.rows, p[|p| - 2]); }
    if |front| > 1 {
      PathRankFalls(m, front);
    }
    RankFalls(m, Last(front), Last(p));
  }

  /**
    An arbitrary accepted ledger, such as one read back from storage, may only have a cycle of
    dependencies among withdrawn inputs: nothing that is pending or incorporated rests on itself.
   */
  lemma CyclesAreWithdrawn(m: Model, p: seq<nat>)
    requires Inv(m) && DepPath(m.rows, p) && |p| > 1 && p[0] == Last(p)
    ensures IsIn(m.rows, p[0], Withdrawn)
  {
    if Rank(m, p[0]).Some? {
      PathRankFalls(m, p);
    } else {
      assert p[0 + 1] in DepsOf(m.rows, p[0]);
      UnrankedIsWithdrawn(m, p[0]);
    }
  }

  lemma UnrankedIsWithdrawn(m: Model, id: nat)
    requires Inv(m) && Latest(m.rows, id).Some? && Rank(m, id).None?
    ensures IsIn(m.rows, id, Withdrawn)
  {
    IncorporatedInFlat(m.rows, m.requests, id);
    LatestIsCurrent(m.rows, LatestIndex(m.rows, id).value);
    hide RowsOk, RequestsOk, OrderValid, Flat;
    assert m.rows[LatestIndex(m.rows, id).value].selected.id == id;
  }

  /** Two withdrawn inputs that depend on each other: the checks accept them, though no run of commands writes them. */
  const WITHDRAWN_CYCLE := Model(
    [Row(Selection(1, 1), 1, "a", [], Superseded, None, None),
     Row(Selection(2, 1), 1, "b", [1], Withdrawn, None, None),
     Row(Selection(1, 2), 1, "c", [2], Withdrawn, None, None)],
    [], [], 1)

  lemma WithdrawnCycleIsAccepted()
    ensures Inv(WITHDRAWN_CYCLE) && DepPath(WITHDRAWN_CYCLE.rows, [1, 2, 1])
  {
    hide RowsOk, DepsOf;
    var rows := WITHDRAWN_CYCLE.rows;
    CycleRowsOk(rows);
    CycleDependencies(rows);
    assert Flat([]) == [];
  }

  lemma CycleDependencies(rows: seq<Row>)
    requires rows == WITHDRAWN_CYCLE.rows
    ensures DepsOf(rows, 1) == [2] && DepsOf(rows, 2) == [1]
  {
    assert rows[2].selected.id == 1 && rows[1].selected.id == 2;
  }

  lemma CycleRowsOk(rows: seq<Row>)
    requires rows == WITHDRAWN_CYCLE.rows
    ensures RowsOk(rows)
  {
    assert rows[0].selected == Selection(1, 1) && rows[1].selected == Selection(2, 1) && rows[2].selected == Selection(1, 2);
    assert HasAfter(rows, 0, 1) && HasBefore(rows, 1, 1) && HasBefore(rows, 2, 2);
    assert ExactBefore(rows, 2, Selection(1, 1), false);
    hide HasAfter, HasBefore, ExactBefore;
    assert !HasAfter(rows, 1, 2) && !HasAfter(rows, 2, 1) by { NothingAfter(rows); }
    assert RowOk(rows, 0) && RowOk(rows, 1) && RowOk(rows, 2);
  }

  lemma NothingAfter(rows: seq<Row>)
    requires rows == WITHDRAWN_CYCLE.rows
    ensures !HasAfter(rows, 1, 2) && !HasAfter(rows, 2, 1)
  {
  }

  // ----- the generation fence -----

  /** The number of accepted commands other than incorporations. */
  function Changes(start: Model, steps: seq<Step>): nat {
    if steps == [] then 0
    else
      var step := Last(steps);
      Changes(start, Init(steps))
      + if Apply(RunFrom(start, Init(steps)), step.command, step.author).Ok? && !step.command.Incorporate? then 1 else 0
  }

  lemma GenerationFrame(m: Model, command: Command, author: nat)
    requires Apply(m, command, author).Ok?
    ensures Apply(m, command, author).value.generation == m.generation + if command.Incorporate? then 0 else 1
  {
  }

  lemma {:induction false} GenerationCountsChanges(start: Model, steps: seq<Step>)
    ensures RunFrom(start, steps).generation == start.generation + Changes(start, steps)
  {
    hide Apply;
    if steps != [] {
      GenerationCountsChanges(start, Init(steps));
      var m, step := RunFrom(start, Init(steps)), Last(steps);
      if Apply(m, step.command, step.author).Ok? {
        GenerationFrame(m, step.command, step.author);
      }
    }
  }

  /** Same governing instructions: only the bookkeeping of incorporation moved on. */
  ghost predicate SameInstructions(m: Model, n: Model) {
    && |n.rows| == |m.rows|
    && (forall k :: 0 <= k < |m.rows| ==>
          n.rows[k] == m.rows[k].(state := n.rows[k].state, invocation := n.rows[k].invocation))
    && n.order == Drop(m.order, Ids(Flat(n.requests)))
    && (forall s :: s in Flat(n.requests) + Picked(n) <==> s in Flat(m.requests) + Picked(m))
  }

  lemma {:induction false} DropDisjoint(s: seq<nat>, xs: seq<nat>)
    requires forall x | x in s :: x !in xs
    ensures Drop(s, xs) == s
  {
    if s != [] {
      DropDisjoint(Init(s), xs);
    }
  }

  lemma {:induction false} DropTwice(s: seq<nat>, xs: seq<nat>, ys: seq<nat>)
    ensures Drop(Drop(s, xs), ys) == Drop(s, xs + ys)
  {
    if s != [] {
      DropTwice(Init(s), xs, ys);
      if Last(s) !in xs {
        assert Init(Drop(Init(s), xs) + [Last(s)]) == Drop(Init(s), xs);
      }
    }
  }

  lemma SameSelf(m: Model)
    requires Inv(m)
    ensures SameInstructions(m, m)
  {
    forall x | x in m.order ensures x !in Ids(Flat(m.requests)) { IncorporatedInFlat(m.rows, m.requests, x); }
    DropDisjoint(m.order, Ids(Flat(m.requests)));
  }

  /** What the extended request list rests on, it contains. */
  lemma IncludedIsClosed(rows: seq<Row>, n: Model, a: nat, d: nat)
    requires RequestsOk(n.rows, n.requests) && Restated(rows, n.rows)
    requires forall id :: LatestIndex(n.rows, id) == LatestIndex(rows, id)
    requires a in Ids(Flat(n.requests)) && d in DepsOf(rows, a)
    ensures d in Ids(Flat(n.requests))
  {
    var ids := Ids(Flat(n.requests));
    var u :| 0 <= u < |ids| && ids[u] == a;
    assert DepsBefore(n.rows, Flat(n.requests), u);
  }

  /** An accepted request takes only inputs the capture would have shown. */
  lemma TakenWerePicked(m: Model, request: Request, n: Model, s: Selection)
    requires Inv(m) && IncorporateRequest(m, request) == Ok(n) && Inv(n) && s in request.items
    ensures s in Picked(m)
  {
    var ids := Ids(Flat(n.requests));
    MarkedRows(m, request, n);
    ItemsQueued(m.rows, request.items);
    FlatGrows(m.requests, request);
    var t :| 0 <= t < |request.items| && request.items[t] == s;
    assert Ids(request.items)[t] == s.id;
    assert s.id in m.order && s.id in ids;
    forall a, d | a in ids && d in DepsOf(m.rows, a) ensures d in ids { IncludedIsClosed(m.rows, n, a, d); }
    forall d | Depends(m.rows, s.id, d) && !IsIn(m.rows, d, Incorporated) ensures IsIn(m.rows, d, Queued) {
      var p: seq<nat> :| DepPath(m.rows, p) && p[0] == s.id && Last(p) == d;
      ClosedAlongPath(m.rows, ids, p);
      IncorporatedInFlat(n.rows, n.requests, d);
      var u :| 0 <= u < |request.items| && Ids(request.items)[u] == d;
      assert request.items[u] in request.items;
    }
    CaptureSelectsExactlyEligible(m, s);
  }

  /** What a request takes was captured, so both captures include the same selections. */
  lemma SameIncluded(m: Model, request: Request, n: Model, s: Selection)
    requires Inv(m) && IncorporateRequest(m, request) == Ok(n) && Inv(n)
    ensures s in Flat(n.requests) + Picked(n) <==> s in Flat(m.requests) + Picked(m)
  {
    hide Inv, Picked, IncorporateRequest;
    PickedAfter(m, request, n, s);
    RequestTaken(m, request, n);
    FlatGrows(m.requests, request);
    if s in request.items {
      TakenWerePicked(m, request, n, s);
    }
    if s in Picked(m) && s.id in Ids(request.items) {
      var t :| 0 <= t < |request.items| && Ids(request.items)[t] == s.id;
      TakenWerePicked(m, request, n, request.items[t]);
      CaptureSelectsExactlyEligible(m, request.items[t]);
      CaptureSelectsExactlyEligible(m, s);
      assert s == request.items[t];
    }
  }

  lemma IncorporationKeepsInstructions(a: Model, m: Model, request: Request, n: Model)
    requires Inv(m) && SameInstructions(a, m) && IncorporateRequest(m, request) == Ok(n) && Inv(n)
    ensures SameInstructions(a, n)
  {
    hide Inv, Picked, IncorporateRequest, Flat, Drop;
    MarkedRows(m, request, n);
    RequestTaken(m, request, n);
    FlatGrows(m.requests, request);
    DropTwice(a.order, Ids(Flat(m.requests)), Ids(request.items));
    assert Ids(Flat(n.requests)) == Ids(Flat(m.requests)) + Ids(request.items);
    forall s ensures s in Flat(n.requests) + Picked(n) <==> s in Flat(m.requests) + Picked(m) {
      SameIncluded(m, request, n, s);
    }
  }

  lemma NextGeneration(m: Model, step: Step)
    ensures m.generation <= Next(m, step).generation <= m.generation + 1
    ensures Next(m, step).generation == m.generation && Apply(m, step.command, step.author).Ok? ==> step.command.Incorporate?
  {
    hide Apply;
    if Apply(m, step.command, step.author).Ok? {
      GenerationFrame(m, step.command, step.author);
    }
  }

  lemma {:induction false} GenerationNeverFalls(start: Model, steps: seq<Step>, i: nat, j: nat)
    requires i <= j <= |steps|
    ensures RunFrom(start, steps[..i]).generation <= RunFrom(start, steps[..j]).generation
  {
    hide RunFrom, Next;
    if i < j {
      GenerationNeverFalls(start, steps, i, j - 1);
      RunStep(start, steps, j);
      NextGeneration(RunFrom(start, steps[..j - 1]), steps[j - 1]);
    }
  }

  /** An accepted request is applied as it stands. */
  lemma AppliedRequest(m: Model, request: Request, author: nat)
    requires Apply(m, Incorporate(request), author).Ok?
    ensures IncorporateRequest(m, request) == Apply(m, Incorporate(request), author)
  {
    hide IncorporateRequest, ConstructorValid, Admissible;
  }

  lemma FencedStep(a: Model, m: Model, step: Step)
    requires Inv(m) && SameInstructions(a, m) && Next(m, step).generation == m.generation
    ensures SameInstructions(a, Next(m, step))
  {
    hide Inv, SameInstructions, Apply, IncorporateRequest;
    if Apply(m, step.command, step.author).Ok? {
      NextGeneration(m, step);
      ApplyKeepsInvariant(m, step.command, step.author);
      AppliedRequest(m, step.command.request, step.author);
      IncorporationKeepsInstructions(a, m, step.command.request, Next(m, step));
    }
  }

  /**
    The fence: two states of one run with equal generation agree on every row's selection, author,
    text, dependencies and correction; the later order is the earlier one without the identities
    incorporated in between; and both captures include exactly the same selections.
   */
  lemma {:induction false} EqualGenerationSameInstructions(start: Model, steps: seq<Step>, i: nat, j: nat)
    requires Inv(start) && i <= j <= |steps|
    requires RunFrom(start, steps[..i]).generation == RunFrom(start, steps[..j]).generation
    ensures SameInstructions(RunFrom(start, steps[..i]), RunFrom(start, steps[..j]))
  {
    hide Inv, RunFrom, SameInstructions, Next;
    var a := RunFrom(start, steps[..i]);
    if i == j {
      RunKeepsInvariant(start, steps[..i]);
      SameSelf(a);
    } else {
      GenerationNeverFalls(start, steps, i, j - 1);
      GenerationNeverFalls(start, steps, j - 1, j);
      EqualGenerationSameInstructions(start, steps, i, j - 1);
      RunStep(start, steps, j);
      RunKeepsInvariant(start, steps[..j - 1]);
      FencedStep(a, RunFrom(start, steps[..j - 1]), steps[j - 1]);
    }
  }
}
