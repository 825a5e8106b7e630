/**
  What each accepted command means for the newest rows and the order, that it
  touches nothing else, and that history is append-only: over any run a row
  never changes its identity, author, text or dependencies, and one that is
  superseded, incorporated or withdrawn never changes again.
 */
module LedgerEffects {
  import opened Common
  import opened LedgerModel
  import opened LedgerInvariant
  import opened LedgerSteps

  /** The identities whose newest row a command may change. */
  function Touched(command: Command): seq<nat> {
    match command
    case Enqueue(id, _, _) => [id]
    case Edit(selected, _) => [selected.id]
    case Hold(selected, _) => [selected.id]
    case Withdraw(selected) => [selected.id]
    case Move(_, _) => []
    case Reorder(_) => []
    case Correct(_, id, _) => [id]
    case Incorporate(request) => Ids(request.items)
  }

  lemma ReplacedLookup(rows: seq<Row>, k: nat, row: Row)
    requires k < |rows| && LatestIndex(rows, rows[k].selected.id) == Some(k) && row.selected == rows[k].selected
    ensures forall id :: Latest(rows[k := row], id) == if id == row.selected.id then Some(row) else Latest(rows, id)
  {
    forall id
      ensures Latest(rows[k := row], id) == if id == row.selected.id then Some(row) else Latest(rows, id)
    {
      LookupSame(rows, rows[k := row], id);
    }
  }

  lemma AppendedLookup(rows: seq<Row>, rows': seq<Row>, row: Row)
    requires |rows'| == |rows| + 1 && Last(rows') == row
    requires forall i :: 0 <= i < |rows| ==> rows'[i].selected == rows[i].selected
                                             && (rows[i].selected.id != row.selected.id ==> rows'[i] == rows[i])
    ensures forall id :: Latest(rows', id) == if id == row.selected.id then Some(row) else Latest(rows, id)
  {
    PushedLookups(rows, rows', row);
  }

  lemma MarkedLookup(rows: seq<Row>, items: seq<Selection>, v: nat)
    requires FirstItemError(rows, items).None?
    ensures forall id | id !in Ids(items) :: Latest(MarkTaken(rows, items, v), id) == Latest(rows, id)
    ensures forall s | s in items ::
              Latest(rows, s.id).Some? && Latest(rows, s.id).value.selected == s
              && Latest(rows, s.id).value.state == Queued
              && Latest(MarkTaken(rows, items, v), s.id) ==
                 Some(Latest(rows, s.id).value.(state := Incorporated, invocation := Some(v)))
  {
    var rows' := MarkTaken(rows, items, v);
    ItemsQueued(rows, items);
    forall id ensures LatestIndex(rows', id) == LatestIndex(rows, id) { LookupSame(rows, rows', id); }
    forall s | s in items ensures s.id in Ids(items) {
      var t :| 0 <= t < |items| && items[t] == s;
      assert Ids(items)[t] == s.id;
    }
    forall s | s in items
      ensures Latest(rows, s.id).Some? && Latest(rows, s.id).value.selected == s
      ensures Latest(rows, s.id).value.state == Queued
      ensures Latest(rows', s.id) == Some(Latest(rows, s.id).value.(state := Incorporated, invocation := Some(v)))
    {
      assert Taken(rows, items, PendingIndex(rows, s).value);
    }
  }

  /** A command changes the newest row of no identity it does not name. */
  lemma OnlyNamedInputsChange(m: Model, command: Command, author: nat, id: nat)
    requires Apply(m, command, author).Ok? && id !in Touched(command)
    ensures Latest(Apply(m, command, author).value.rows, id) == Latest(m.rows, id)
  {
    var n := Mutate(m, command, author).value;
    match command
    case Enqueue(_, _, _) => AppendedLookup(m.rows, n.rows, Last(n.rows));
    case Edit(selected, _) => AppendedLookup(m.rows, n.rows, Last(n.rows));
    case Hold(selected, held) =>
      var k := PendingIndex(m.rows, selected).value;
      ReplacedLookup(m.rows, k, n.rows[k]);
    case Withdraw(selected) =>
      var k := PendingIndex(m.rows, selected).value;
      ReplacedLookup(m.rows, k, n.rows[k]);
    case Move(_, _) =>
    case Reorder(_) =>
    case Correct(_, _, _) => AppendedLookup(m.rows, n.rows, Last(n.rows));
    case Incorporate(request) => MarkedLookup(m.rows, request.items, request.invocation);
  }

  /** `id` stands at p, once, directly before `before` or last; the others keep their order. */
  ghost predicate PlacedAt(order: seq<nat>, moved: seq<nat>, id: nat, before: Option<nat>, p: nat) {
    && p < |moved| && moved[p] == id && moved[..p] + moved[p + 1..] == Drop(order, [id])
    && match before
       case None => p == |moved| - 1
       case Some(b) => p < |moved| - 1 && moved[p + 1] == b && b !in moved[..p]
  }

  /** The order after moving `id`. */
  ghost predicate Placed(order: seq<nat>, moved: seq<nat>, id: nat, before: Option<nat>) {
    exists p: nat :: PlacedAt(order, moved, id, before, p)
  }

  /** There is only one such order. */
  lemma PlacedOnlyOnce(order: seq<nat>, a: seq<nat>, b: seq<nat>, id: nat, before: Option<nat>)
    requires Placed(order, a, id, before) && Placed(order, b, id, before)
    ensures a == b
  {
    hide PlacedAt;
    var p: nat :| PlacedAt(order, a, id, before, p);
    var q: nat :| PlacedAt(order, b, id, before, q);
    PlacedForm(order, a, id, before, p);
    PlacedForm(order, b, id, before, q);
  }

  lemma PlacedForm(order: seq<nat>, moved: seq<nat>, id: nat, before: Option<nat>, p: nat)
    requires PlacedAt(order, moved, id, before, p)
    ensures var rest := Drop(order, [id]);
            && p <= |rest| && moved == rest[..p] + [id] + rest[p..]
            && (before.None? ==> p == |rest|)
            && (before.Some? ==> p < |rest| && rest[p] == before.value && before.value !in rest[..p])
  {
    hide Drop;
    var rest := Drop(order, [id]);
    assert rest[..p] == moved[..p] && rest[p..] == moved[p + 1..];
    assert before.Some? ==> rest[p] == moved[p + 1];
  }

  lemma MoveIsExact(order: seq<nat>, id: nat, before: Option<nat>)
    requires MoveOrder(order, id, before).Ok?
    ensures Placed(order, MoveOrder(order, id, before).value, id, before)
  {
    hide Drop, Position;
    var rest, moved := Drop(order, [id]), MoveOrder(order, id, before).value;
    var p := if before.Some? then Position(rest, before.value).value else |rest|;
    assert rest == rest[..p] + rest[p..];
    assert moved == rest[..p] + [id] + rest[p..];
    assert moved[p] == id && moved[..p] == rest[..p] && moved[p + 1..] == rest[p..];
    assert before.Some? ==> moved[p + 1] == rest[p];
    assert PlacedAt(order, moved, id, before, p);
  }

  /** What an accepted command leaves behind for the inputs it names, and for the order, the requests and the fence. */
  ghost predicate Effect(m: Model, command: Command, author: nat, n: Model) {
    && |n.rows| == |m.rows| + (if command.Enqueue? || command.Edit? || command.Correct? then 1 else 0)
    && n.generation == m.generation + (if command.Incorporate? then 0 else 1)
    && match command
    case Enqueue(id, text, dependencies) =>
      && Latest(m.rows, id).None? && (forall d | d in dependencies :: Latest(m.rows, d).Some?)
      && Latest(n.rows, id) == Some(Row(Selection(id, 1), author, text, dependencies, Queued, None, None))
      && n.order == m.order + [id] && n.requests == m.requests
    case Edit(selected, text) =>
      && Current(m, selected)
      && Latest(n.rows, selected.id) ==
         Some(Latest(m.rows, selected.id).value.(selected := Selection(selected.id, selected.revision + 1),
                                                 author := author, text := text))
      && n.order == m.order && n.requests == m.requests
    case Hold(selected, held) =>
      && Current(m, selected)
      && Latest(n.rows, selected.id) == Some(Latest(m.rows, selected.id).value.(state := if held then Held else Queued))
      && n.order == m.order && n.requests == m.requests
    case Withdraw(selected) =>
      && Current(m, selected)
      && Latest(n.rows, selected.id) == Some(Latest(m.rows, selected.id).value.(state := Withdrawn))
      && (forall id | id in n.order :: selected.id !in DepsOf(n.rows, id))
      && n.order == Drop(m.order, [selected.id]) && n.requests == m.requests
    case Move(selected, before) =>
      && Current(m, selected)
      && n.rows == m.rows && Placed(m.order, n.order, selected.id, before) && n.requests == m.requests
    case Reorder(order) => n.rows == m.rows && n.order == order && n.requests == m.requests
    case Correct(original, id, text) =>
      && Latest(m.rows, id).None? && IsIn(m.rows, original.id, Incorporated)
      && Latest(m.rows, original.id).value.selected == original
      && Latest(n.rows, id) == Some(Row(Selection(id, 1), author, text, [original.id], Queued, Some(original), None))
      && n.order == m.order + [id] && n.requests == m.requests
    case Incorporate(request) =>
      && (forall s | s in request.items ::
            Current(m, s) && Latest(m.rows, s.id).value.state == Queued
            && Latest(n.rows, s.id) ==
               Some(Latest(m.rows, s.id).value.(state := Incorporated, invocation := Some(request.invocation))))
      && n.order == Drop(m.order, Ids(request.items)) && n.requests == m.requests + [request]
  }

  /** `selected` names the newest revision of a pending input. */
  predicate Current(m: Model, selected: Selection) {
    var row := Latest(m.rows, selected.id);
    row.Some? && row.value.selected == selected && row.value.state.Pending()
  }

  lemma AcceptedCommandEffect(m: Model, command: Command, author: nat)
    requires Inv(m) && Apply(m, command, author).Ok?
    ensures Effect(m, command, author, Apply(m, command, author).value)
  {
    hide RowsOk, OrderOk, RequestsOk, Admissible, HasPendingDependent, MoveOrder, Placed, IncorporateRequest, LatestBefore, Drop,
      EnqueueRow, EditRow, ConstructorValid;
    var n := Mutate(m, command, author).value;
    match command
    case Enqueue(id, text, dependencies) =>
      EnqueuedEffect(m, id, author, text, dependencies, None, n);
    case Edit(selected, text) =>
      EditedEffect(m, author, selected, text, n);
    case Hold(selected, held) =>
      var k := PendingIndex(m.rows, selected).value;
      ReplacedLookup(m.rows, k, n.rows[k]);
    case Withdraw(selected) =>
      var k := PendingIndex(m.rows, selected).value;
      ReplacedLookup(m.rows, k, n.rows[k]);
      WithdrawnUnneeded(m, selected, n);
    case Move(selected, before) =>
      MoveIsExact(m.order, selected.id, before);
    case Reorder(_) =>
    case Correct(original, id, text) =>
      EnqueuedEffect(m, id, author, text, [original.id], Some(original), n);
      LatestIsCurrent(m.rows, ExactIndex(m.rows, original).value);
    case Incorporate(request) =>
      IncorporatedEffect(m, request, n);
  }

  lemma EnqueuedEffect(m: Model, id: nat, author: nat, text: string, dependencies: seq<nat>, correction: Option<Selection>, n: Model)
    requires EnqueueRow(m, id, author, text, dependencies, correction) == Ok(n)
    ensures Latest(m.rows, id).None? && forall d | d in dependencies :: Latest(m.rows, d).Some?
    ensures Latest(n.rows, id) == Some(Row(Selection(id, 1), author, text, dependencies, Queued, correction, None))
    ensures |n.rows| == |m.rows| + 1 && n.order == m.order + [id] && n.requests == m.requests && n.generation == m.generation
  {
    hide LatestBefore;
    AppendedLookup(m.rows, n.rows, Last(n.rows));
  }

  lemma EditedEffect(m: Model, author: nat, selected: Selection, text: string, n: Model)
    requires EditRow(m, author, selected, text) == Ok(n)
    ensures Current(m, selected)
    ensures Latest(n.rows, selected.id) ==
            Some(Latest(m.rows, selected.id).value.(selected := Selection(selected.id, selected.revision + 1),
                                                    author := author, text := text))
    ensures |n.rows| == |m.rows| + 1 && n.order == m.order && n.requests == m.requests && n.generation == m.generation
  {
    hide LatestBefore;
    AppendedLookup(m.rows, n.rows, Last(n.rows));
  }

  lemma IncorporatedEffect(m: Model, request: Request, n: Model)
    requires IncorporateRequest(m, request) == Ok(n)
    ensures |n.rows| == |m.rows| && n.generation == m.generation
    ensures n.order == Drop(m.order, Ids(request.items)) && n.requests == m.requests + [request]
    ensures forall s | s in request.items ::
              Current(m, s) && Latest(m.rows, s.id).value.state == Queued
              && Latest(n.rows, s.id) ==
                 Some(Latest(m.rows, s.id).value.(state := Incorporated, invocation := Some(request.invocation)))
  {
    hide IncorporateRequest, MarkTaken, FirstItemError, ItemDepsIncluded, Latest, Drop, Keep;
    RequestTaken(m, request, n);
    MarkedLookup(m.rows, request.items, request.invocation);
  }

  lemma WithdrawnUnneeded(m: Model, selected: Selection, n: Model)
    requires !HasPendingDependent(m, selected.id)
    requires n.order == Drop(m.order, [selected.id])
    requires forall id | id != selected.id :: Latest(n.rows, id) == Latest(m.rows, id)
    ensures forall id | id in n.order :: selected.id !in DepsOf(n.rows, id)
  {
    forall id | id in n.order ensures selected.id !in DepsOf(n.rows, id) {
      var i :| 0 <= i < |m.order| && m.order[i] == id;
    }
  }

  // ----- history is append-only -----

  ghost predicate Extends(m: Model, n: Model) {
    && |m.rows| <= |n.rows| && m.requests <= n.requests && m.generation <= n.generation
    && forall k | 0 <= k < |m.rows| ::
         && n.rows[k] == m.rows[k].(state := n.rows[k].state, invocation := n.rows[k].invocation)
         && (!m.rows[k].state.Pending() ==> n.rows[k] == m.rows[k])
  }

  lemma CommandExtends(m: Model, command: Command, author: nat)
    requires Apply(m, command, author).Ok?
    ensures Extends(m, Apply(m, command, author).value)
  {
    hide IncorporateRequest, ConstructorValid, Admissible, HasPendingDependent, MoveOrder, LatestBefore, Drop;
    if command.Incorporate? {
      IncorporateExtends(m, command.request, Mutate(m, command, author).value);
    }
  }

  lemma IncorporateExtends(m: Model, request: Request, n: Model)
    requires IncorporateRequest(m, request) == Ok(n)
    ensures Extends(m, n)
  {
    hide IncorporateRequest, FirstItemError, LatestBefore, ItemDepsIncluded, Keep, Drop;
    RequestTaken(m, request, n);
    ItemsQueued(m.rows, request.items);
    forall k | 0 <= k < |m.rows| && Taken(m.rows, request.items, k) ensures m.rows[k].state.Pending() {
      assert PendingIndex(m.rows, m.rows[k].selected) == Ok(k);
    }
  }

  lemma ExtendsTransitive(a: Model, b: Model, c: Model)
    requires Extends(a, b) && Extends(b, c)
    ensures Extends(a, c)
  {
  }

  lemma NextExtends(m: Model, step: Step)
    ensures Extends(m, Next(m, step))
  {
    hide Apply;
    if Apply(m, step.command, step.author).Ok? {
      CommandExtends(m, step.command, step.author);
    }
  }

  /**
    Between any two states of one run the earlier history is a prefix of the later one: each row
    keeps its identity, revision, author, text, dependencies and correction, finished rows stay
    exactly as they are, and requests are only added.
   */
  lemma {:induction false} HistoryIsAppendOnly(start: Model, steps: seq<Step>, i: nat, j: nat)
    requires i <= j <= |steps|
    ensures Extends(RunFrom(start, steps[..i]), RunFrom(start, steps[..j]))
  {
    hide RunFrom, Next;
    if i == j {
      ExtendsSelf(RunFrom(start, steps[..i]));
    } else {
      HistoryIsAppendOnly(start, steps, i, j - 1);
      RunStep(start, steps, j);
      NextExtends(RunFrom(start, steps[..j - 1]), steps[j - 1]);
      ExtendsTransitive(RunFrom(start, steps[..i]), RunFrom(start, steps[..j - 1]), RunFrom(start, steps[..j]));
    }
  }

  lemma ExtendsSelf(m: Model)
    ensures Extends(m, m)
  {
  }
}
