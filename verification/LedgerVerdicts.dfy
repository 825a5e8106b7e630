/**
  Which commands a ledger accepts and why it refuses the others, said in terms
  of rows and order alone: `CommandVerdict` gives acceptance and every error of
  every command exactly.
 */
module LedgerVerdicts {
  import opened Common
  import opened Text
  import opened LedgerModel
  import opened LedgerInvariant
  import opened LedgerSteps
  import opened LedgerEffects
  import opened LedgerCapture
  import opened LedgerProduction
  import opened LedgerDecoded

  // ----- what a command meets -----

  ghost predicate Known(m: Model, id: nat) {
    exists k :: 0 <= k < |m.rows| && m.rows[k].selected.id == id
  }

  ghost predicate Newest(rows: seq<Row>, k: nat) {
    k < |rows| && forall j :: k < j < |rows| ==> rows[j].selected.id != rows[k].selected.id
  }

  /** The identity is known, but its newest row is another revision. */
  ghost predicate Outdated(m: Model, s: Selection) {
    exists k: nat :: Newest(m.rows, k) && m.rows[k].selected.id == s.id && m.rows[k].selected != s
  }

  ghost predicate Needed(m: Model, id: nat) {
    exists x :: x in m.order && id in DepsOf(m.rows, x)
  }

  /** The identities stand in the order, each before the next. */
  ghost predicate InQueueOrder(order: seq<nat>, ids: seq<nat>) {
    && (forall x | x in ids :: x in order)
    && forall t, u, i, j | 0 <= t < u < |ids| && 0 <= i < |order| && 0 <= j < |order| ::
         order[i] == ids[t] && order[j] == ids[u] ==> i < j
  }

  ghost predicate Takeable(m: Model, s: Selection) {
    Current(m, s) && IsIn(m.rows, s.id, Queued)
  }

  ghost predicate DepsTaken(m: Model, items: seq<Selection>, t: nat)
    requires t < |items|
  {
    forall d | d in DepsOf(m.rows, items[t].id) :: IsIn(m.rows, d, Incorporated) || d in Ids(items)[..t]
  }

  ghost predicate AllTakeable(m: Model, items: seq<Selection>) {
    forall s | s in items :: Takeable(m, s)
  }

  ghost predicate AllDepsTaken(m: Model, items: seq<Selection>) {
    forall t :: 0 <= t < |items| ==> DepsTaken(m, items, t)
  }

  /** Item t is the first that cannot be taken. */
  ghost predicate FirstUntakeable(m: Model, items: seq<Selection>, t: nat) {
    && t < |items| && !Takeable(m, items[t])
    && forall u :: 0 <= u < t ==> Takeable(m, items[u])
  }

  ghost predicate FirstIsOutdated(m: Model, items: seq<Selection>) {
    exists t: nat :: FirstUntakeable(m, items, t) && Outdated(m, items[t])
  }

  ghost predicate Nonzero(items: seq<Selection>) {
    forall s | s in items :: s.revision != 0
  }

  ghost predicate Accepts(m: Model, command: Command) {
    match command
    case Enqueue(id, text, dependencies) =>
      && ValidText(text) && !Known(m, id) && NoDup(dependencies)
      && forall d | d in dependencies :: Known(m, d) && !IsIn(m.rows, d, Withdrawn)
    case Edit(selected, text) => ValidText(text) && Current(m, selected)
    case Hold(selected, _) => Current(m, selected)
    case Withdraw(selected) => Current(m, selected) && !Needed(m, selected.id)
    case Move(selected, before) =>
      && Current(m, selected)
      && (before.Some? ==> before.value != selected.id && before.value in m.order)
      && forall moved :: Placed(m.order, moved, selected.id, before) ==> RespectsDependencies(m.rows, moved)
    case Reorder(order) => multiset(order) == multiset(m.order) && RespectsDependencies(m.rows, order)
    case Correct(original, id, text) =>
      && ValidText(text) && !Known(m, id)
      && IsIn(m.rows, original.id, Incorporated) && Latest(m.rows, original.id).value.selected == original
    case Incorporate(request) =>
      && m.generation > 0 && Unused(m, request.invocation)
      && InQueueOrder(m.order, Ids(request.items))
      && AllTakeable(m, request.items) && AllDepsTaken(m, request.items)
  }

  /** The identity or the invocation is already in use. */
  ghost predicate Conflicts(m: Model, command: Command) {
    match command
    case Enqueue(id, text, _) => ValidText(text) && Known(m, id)
    case Correct(original, id, text) =>
      && ValidText(text) && Known(m, id)
      && IsIn(m.rows, original.id, Incorporated) && Latest(m.rows, original.id).value.selected == original
    case Incorporate(request) => Nonzero(request.items) && !Unused(m, request.invocation)
    case _ => false
  }

  /** The command names an identity that is not there. */
  ghost predicate Misses(m: Model, command: Command) {
    match command
    case Edit(selected, text) => ValidText(text) && selected.revision != 0 && !Known(m, selected.id)
    case Hold(selected, _) => selected.revision != 0 && !Known(m, selected.id)
    case Withdraw(selected) => selected.revision != 0 && !Known(m, selected.id)
    case Move(selected, before) =>
      && selected.revision != 0
      && (!Known(m, selected.id)
          || (Current(m, selected) && before.Some? && before.value != selected.id && before.value !in m.order))
    case _ => false
  }

  /** The command names a revision that is not the newest. */
  ghost predicate Lags(m: Model, command: Command) {
    match command
    case Edit(selected, text) => ValidText(text) && selected.revision != 0 && Outdated(m, selected)
    case Hold(selected, _) => selected.revision != 0 && Outdated(m, selected)
    case Withdraw(selected) => selected.revision != 0 && Outdated(m, selected) && !Needed(m, selected.id)
    case Move(selected, _) => selected.revision != 0 && Outdated(m, selected)
    case Correct(original, _, text) =>
      ValidText(text) && original.revision != 0 && forall k :: 0 <= k < |m.rows| ==> m.rows[k].selected != original
    case Incorporate(request) =>
      && Nonzero(request.items) && Unused(m, request.invocation) && InQueueOrder(m.order, Ids(request.items))
      && FirstIsOutdated(m, request.items)
    case _ => false
  }

  /** Acceptance, and which error when not; every refusal outside the three named families is InvalidInput. */
  ghost predicate Verdict(m: Model, command: Command, r: Result<Model>) {
    && (r.Ok? <==> Accepts(m, command))
    && (r == Err(IdempotencyConflict) <==> Conflicts(m, command))
    && (r == Err(NotFound) <==> Misses(m, command))
    && (r == Err(StaleRevision) <==> Lags(m, command))
    && r != Err(Capacity)
  }

  // ----- the guards -----

  lemma PendingVerdict(m: Model, s: Selection)
    requires RowsOk(m.rows)
    ensures PendingIndex(m.rows, s).Ok? <==> Current(m, s)
    ensures PendingIndex(m.rows, s) == Err(NotFound) <==> !Known(m, s.id)
    ensures PendingIndex(m.rows, s) == Err(StaleRevision) <==> Outdated(m, s)
    ensures PendingIndex(m.rows, s) != Err(Capacity) && PendingIndex(m.rows, s) != Err(IdempotencyConflict)
    ensures Current(m, s) ==> s.revision != 0
  {
    var k := LatestIndex(m.rows, s.id);
    if k.Some? {
      assert RowOk(m.rows, k.value);
      assert Newest(m.rows, k.value);
    }
  }

  lemma KnownIsLatest(m: Model, id: nat)
    ensures Known(m, id) <==> LatestIndex(m.rows, id).Some?
  {
  }

  lemma NeededIsDependent(m: Model, id: nat)
    ensures HasPendingDependent(m, id) <==> Needed(m, id)
  {
    if Needed(m, id) {
      var x :| x in m.order && id in DepsOf(m.rows, x);
      var i :| 0 <= i < |m.order| && m.order[i] == x;
    }
    if HasPendingDependent(m, id) {
      var i :| 0 <= i < |m.order| && id in DepsOf(m.rows, m.order[i]);
      assert m.order[i] in m.order;
    }
  }

  /** What pending inputs depend on is known. */
  lemma NeededIsKnown(m: Model, id: nat)
    requires Inv(m) && Needed(m, id)
    ensures Known(m, id)
  {
    var x :| x in m.order && id in DepsOf(m.rows, x);
    var k := LatestIndex(m.rows, x).value;
    assert RowOk(m.rows, k);
    assert HasBefore(m.rows, k, id);
  }

  lemma PermutationFits(order: seq<nat>, proposal: seq<nat>)
    requires NoDup(order)
    ensures multiset(proposal) == multiset(order) <==> |proposal| == |order| && forall id | id in order :: id in proposal
  {
    if |proposal| == |order| && forall id | id in order :: id in proposal {
      ReorderIsPermutation(order, proposal);
    }
    if multiset(proposal) == multiset(order) {
      assert |multiset(proposal)| == |proposal| && |multiset(order)| == |order|;
      assert forall id | id in order :: id in multiset(order);
    }
  }

  // ----- command by command -----

  lemma EnqueueVerdict(m: Model, command: Command, author: nat)
    requires Inv(m) && command.Enqueue?
    ensures Verdict(m, command, Apply(m, command, author))
  {
    var r := Apply(m, command, author);
    KnownIsLatest(m, command.id);
    forall d | d in command.dependencies ensures Known(m, d) <==> LatestIndex(m.rows, d).Some? { KnownIsLatest(m, d); }
    DependenciesFit(m, command.id, command.dependencies);
    hide Inv, Known, ValidText, OrderValid, Admissible;
    if ValidText(command.text) && Mutate(m, command, author).Ok? {
      ClosingCheckIsExact(m, command, author);
    }
  }

  lemma DependenciesFit(m: Model, id: nat, dependencies: seq<nat>)
    ensures (exists i | 0 <= i < |dependencies| ::
               dependencies[i] == id || LatestIndex(m.rows, dependencies[i]).None? || dependencies[i] in dependencies[..i])
            <==> !(NoDup(dependencies) && forall d | d in dependencies :: d != id && LatestIndex(m.rows, d).Some?)
  {
    hide LatestIndex;
    if exists i | 0 <= i < |dependencies| ::
         dependencies[i] == id || LatestIndex(m.rows, dependencies[i]).None? || dependencies[i] in dependencies[..i]
    {
      var i :| 0 <= i < |dependencies|
               && (dependencies[i] == id || LatestIndex(m.rows, dependencies[i]).None? || dependencies[i] in dependencies[..i]);
      assert dependencies[i] in dependencies;
      if dependencies[i] in dependencies[..i] {
        var h :| 0 <= h < i && dependencies[h] == dependencies[i];
      }
    } else {
      forall h, i | 0 <= h < i < |dependencies| ensures dependencies[h] != dependencies[i] {
        assert dependencies[..i][h] == dependencies[h];
      }
    }
  }

  lemma HoldVerdict(m: Model, command: Command, author: nat)
    requires Inv(m) && command.Hold?
    ensures Verdict(m, command, Apply(m, command, author))
  {
    PendingVerdict(m, command.selected);
    hide Inv, Known, Outdated, Current, Admissible;
    if ConstructorValid(command) && Mutate(m, command, author).Ok? {
      ClosingCheckIsExact(m, command, author);
    }
  }

  lemma EditVerdict(m: Model, command: Command, author: nat)
    requires Inv(m) && command.Edit?
    ensures Verdict(m, command, Apply(m, command, author))
  {
    PendingVerdict(m, command.selected);
    hide Inv, Known, Outdated, Current, Admissible, ValidText;
    if ConstructorValid(command) && Mutate(m, command, author).Ok? {
      ClosingCheckIsExact(m, command, author);
    }
  }

  lemma WithdrawVerdict(m: Model, command: Command, author: nat)
    requires Inv(m) && command.Withdraw?
    ensures Verdict(m, command, Apply(m, command, author))
  {
    PendingVerdict(m, command.selected);
    NeededIsDependent(m, command.selected.id);
    if Needed(m, command.selected.id) {
      NeededIsKnown(m, command.selected.id);
    }
    hide Inv, Known, Outdated, Current, Admissible, Needed, HasPendingDependent;
    if ConstructorValid(command) && Mutate(m, command, author).Ok? {
      ClosingCheckIsExact(m, command, author);
    }
  }

  lemma MoveMutation(m: Model, command: Command, author: nat)
    requires Inv(m) && command.Move?
    ensures var r, s, before := Mutate(m, command, author), command.selected, command.before;
            && (r.Ok? <==> Current(m, s) && (before.Some? ==> before.value != s.id && before.value in m.order))
            && (r.Ok? ==> MoveOrder(m.order, s.id, before).Ok? && Placed(m.order, MoveOrder(m.order, s.id, before).value, s.id, before))
            && (r == Err(NotFound) <==>
                  !Known(m, s.id) || (Current(m, s) && before.Some? && before.value != s.id && before.value !in m.order))
            && (r == Err(StaleRevision) <==> Outdated(m, s))
            && r != Err(Capacity) && r != Err(IdempotencyConflict)
  {
    PendingVerdict(m, command.selected);
    if command.before != Some(command.selected.id) {
      MoveFits(m.order, command.selected.id, command.before);
    }
    hide Inv, Known, Outdated, Current, MoveOrder, Placed, PendingIndex;
  }

  lemma MoveVerdict(m: Model, command: Command, author: nat)
    requires Inv(m) && command.Move?
    ensures Verdict(m, command, Apply(m, command, author))
  {
    MoveMutation(m, command, author);
    PendingVerdict(m, command.selected);
    hide Inv, Known, Outdated, Current, Admissible, MoveOrder, Placed, RespectsDependencies, Mutate;
    if ConstructorValid(command) && Mutate(m, command, author).Ok? {
      ClosingCheckIsExact(m, command, author);
      OnlyPlaced(m, MoveOrder(m.order, command.selected.id, command.before).value, command.selected.id, command.before);
    }
  }

  lemma OnlyPlaced(m: Model, moved: seq<nat>, id: nat, before: Option<nat>)
    requires Placed(m.order, moved, id, before)
    ensures (forall other :: Placed(m.order, other, id, before) ==> RespectsDependencies(m.rows, other)) <==>
            RespectsDependencies(m.rows, moved)
  {
    hide Placed, RespectsDependencies;
    forall other | Placed(m.order, other, id, before) ensures other == moved {
      PlacedOnlyOnce(m.order, other, moved, id, before);
    }
  }

  lemma MoveFits(order: seq<nat>, id: nat, before: Option<nat>)
    requires before != Some(id)
    ensures MoveOrder(order, id, before).Ok? <==> before.None? || before.value in order
    ensures MoveOrder(order, id, before).Err? ==> MoveOrder(order, id, before).error == NotFound
    ensures MoveOrder(order, id, before).Ok? ==> Placed(order, MoveOrder(order, id, before).value, id, before)
  {
    if MoveOrder(order, id, before).Ok? {
      MoveIsExact(order, id, before);
    }
  }

  lemma ReorderVerdict(m: Model, command: Command, author: nat)
    requires Inv(m) && command.Reorder?
    ensures Verdict(m, command, Apply(m, command, author))
  {
    PermutationFits(m.order, command.order);
    hide Inv, Admissible, RespectsDependencies;
    if Mutate(m, command, author).Ok? {
      ClosingCheckIsExact(m, command, author);
    }
  }

  lemma CorrectMutation(m: Model, command: Command, author: nat)
    requires Inv(m) && command.Correct?
    ensures var r, original := Mutate(m, command, author), command.original;
            var found := IsIn(m.rows, original.id, Incorporated) && Latest(m.rows, original.id).value.selected == original;
            && (r.Ok? <==> found && !Known(m, command.id))
            && (r == Err(IdempotencyConflict) <==> found && Known(m, command.id))
            && (r == Err(StaleRevision) <==> forall k :: 0 <= k < |m.rows| ==> m.rows[k].selected != original)
            && r != Err(Capacity) && r != Err(NotFound)
            && (found ==> original.revision != 0)
  {
    KnownIsLatest(m, command.id);
    OriginalFits(m, command.original);
    hide Inv, Known, Exact, IsIn, LatestIndex;
  }

  lemma CorrectVerdict(m: Model, command: Command, author: nat)
    requires Inv(m) && command.Correct?
    ensures Verdict(m, command, Apply(m, command, author))
  {
    CorrectMutation(m, command, author);
    hide Inv, Known, ValidText, OrderValid, Admissible, Latest, IsIn, Mutate;
    if ConstructorValid(command) && Mutate(m, command, author).Ok? {
      ClosingCheckIsExact(m, command, author);
    }
  }

  /** A correction finds an incorporated original exactly when that is its newest revision. */
  lemma OriginalFits(m: Model, original: Selection)
    requires RowsOk(m.rows)
    ensures Exact(m.rows, original).Err? <==> forall k :: 0 <= k < |m.rows| ==> m.rows[k].selected != original
    ensures Exact(m.rows, original).Err? ==> Exact(m.rows, original).error == StaleRevision
    ensures Exact(m.rows, original).Ok? && Exact(m.rows, original).value.state == Incorporated <==>
            IsIn(m.rows, original.id, Incorporated) && Latest(m.rows, original.id).value.selected == original
    ensures IsIn(m.rows, original.id, Incorporated) && Latest(m.rows, original.id).value.selected == original ==>
              original.revision != 0 && LatestIndex(m.rows, original.id).Some?
  {
    var k := ExactIndex(m.rows, original);
    if k.Some? {
      LatestIsCurrent(m.rows, k.value);
      assert RowOk(m.rows, k.value);
    }
  }

  // ----- incorporation -----

  /** What a filter keeps stands in queue order. */
  lemma {:induction false} KeptInQueueOrder(order: seq<nat>, ids: seq<nat>)
    requires NoDup(order)
    ensures InQueueOrder(order, Keep(order, ids))
  {
    if order != [] {
      var front, kept := Init(order), Keep(order, ids);
      KeptInQueueOrder(front, ids);
      forall t, u, i, j | 0 <= t < u < |kept| && 0 <= i < |order| && 0 <= j < |order| && order[i] == kept[t] && order[j] == kept[u]
        ensures i < j
      {
        assert kept[t] == Keep(front, ids)[t] && kept[t] in front;
        if j < |order| - 1 {
          assert kept[u] in front;
          assert u < |Keep(front, ids)| && kept[u] == Keep(front, ids)[u];
          assert front[i] == kept[t] && front[j] == kept[u];
        }
      }
    }
  }

  /** A list in queue order is what its own filter keeps. */
  lemma {:induction false} QueueOrderIsKept(order: seq<nat>, ids: seq<nat>)
    requires NoDup(order) && InQueueOrder(order, ids)
    ensures Keep(order, ids) == ids
  {
    assert ids != [] ==> ids[0] in ids && Last(ids) in ids;
    if order != [] {
      var front, last := Init(order), |order| - 1;
      var rest := if Last(order) in ids then Init(ids) else ids;
      if Last(order) in ids {
        var u :| 0 <= u < |ids| && ids[u] == order[last];
        if u < |ids| - 1 {
          assert false;
        }
      }
      FrontInQueueOrder(order, ids, rest);
      QueueOrderIsKept(front, rest);
      KeepSame(front, ids, rest);
    }
  }

  lemma FrontInQueueOrder(order: seq<nat>, ids: seq<nat>, rest: seq<nat>)
    requires NoDup(order) && InQueueOrder(order, ids) && order != []
    requires ids == rest + (if Last(order) in ids then [Last(order)] else [])
    ensures InQueueOrder(Init(order), rest)
    ensures forall x | x in Init(order) :: x in ids <==> x in rest
  {
    var front, last := Init(order), |order| - 1;
    assert Last(order) in ids ==> ids[|rest|] == order[last];
    forall t | 0 <= t < |rest| ensures rest[t] in front {
      assert rest[t] == ids[t] && ids[t] in ids;
      var i :| 0 <= i < |order| && order[i] == ids[t];
      assert front[i] == rest[t];
    }
    forall t, u, i, j | 0 <= t < u < |rest| && 0 <= i < last && 0 <= j < last && front[i] == rest[t] && front[j] == rest[u]
      ensures i < j
    {
      assert order[i] == ids[t] && order[j] == ids[u];
    }
  }

  lemma QueueOrderIs(order: seq<nat>, ids: seq<nat>)
    requires NoDup(order)
    ensures Keep(order, ids) == ids <==> InQueueOrder(order, ids)
  {
    KeptInQueueOrder(order, ids);
    if InQueueOrder(order, ids) {
      QueueOrderIsKept(order, ids);
    }
  }

  /** The error of a request's items is that of the first one that cannot be taken. */
  lemma {:induction false} ItemsVerdict(m: Model, items: seq<Selection>)
    requires RowsOk(m.rows) && forall s | s in items :: Known(m, s.id)
    ensures FirstItemError(m.rows, items).None? <==> forall s | s in items :: Takeable(m, s)
    ensures FirstItemError(m.rows, items) == Some(StaleRevision) <==>
            exists t: nat :: FirstUntakeable(m, items, t) && Outdated(m, items[t])
    ensures FirstItemError(m.rows, items) in {None, Some(StaleRevision), Some(InvalidInput)}
  {
    if items != [] {
      var front, s := Init(items), Last(items);
      hide RowsOk, Known, Outdated, Current, PendingIndex;
      assert items == front + [s];
      ItemsVerdict(m, front);
      ItemVerdict(m, s);
      forall t: nat | t < |front| ensures FirstUntakeable(m, items, t) <==> FirstUntakeable(m, front, t) {
        FirstUntakeableInFront(m, items, t);
      }
      if FirstItemError(m.rows, front).Some? {
        var u :| 0 <= u < |front| && !Takeable(m, front[u]);
        assert !FirstUntakeable(m, items, |front|);
      } else {
        assert FirstUntakeable(m, items, |front|) <==> !Takeable(m, s);
        assert forall t: nat | t < |front| :: !FirstUntakeable(m, items, t);
      }
    }
  }

  lemma ItemVerdict(m: Model, s: Selection)
    requires RowsOk(m.rows) && Known(m, s.id)
    ensures var k := PendingIndex(m.rows, s);
            && (Takeable(m, s) <==> k.Ok? && m.rows[k.value].state == Queued)
            && (Outdated(m, s) <==> k == Err(StaleRevision))
            && (k.Err? ==> k.error == StaleRevision || k.error == InvalidInput)
            && (Outdated(m, s) ==> !Takeable(m, s))
  {
    PendingVerdict(m, s);
  }

  lemma FirstUntakeableInFront(m: Model, items: seq<Selection>, t: nat)
    requires items != [] && t < |items| - 1
    ensures FirstUntakeable(m, items, t) <==> FirstUntakeable(m, Init(items), t)
  {
    hide Takeable;
    assert forall u | 0 <= u < |items| - 1 :: Init(items)[u] == items[u];
  }

  lemma DepsVerdict(m: Model, items: seq<Selection>, t: nat)
    requires Inv(m) && t < |items| && Current(m, items[t])
    ensures ItemDepsIncluded(m, items, t) <==> DepsTaken(m, items, t)
  {
    forall d ensures d in Ids(Flat(m.requests)) <==> IsIn(m.rows, d, Incorporated) {
      IncorporatedInFlat(m.rows, m.requests, d);
    }
  }

  lemma IncorporateVerdict(m: Model, command: Command, author: nat)
    requires Inv(m) && command.Incorporate?
    ensures Verdict(m, command, Apply(m, command, author))
  {
    assert NoDup(m.order) && RowsOk(m.rows) && (m.generation == 0 ==> m.rows == [] && m.requests == []);
    assert forall id | id in m.order :: Latest(m.rows, id).Some?;
    hide Inv, NoDup, RowsOk, Latest, DepsTaken, Takeable, InQueueOrder, FirstUntakeable, Outdated, Admissible, IncorporateRequest;
    NonzeroItems(m, command.request.items);
    RequestVerdict(m, command.request);
    if ConstructorValid(command) && Mutate(m, command, author).Ok? {
      ClosingCheckIsExact(m, command, author);
    }
  }

  /** The guards of an incorporation, in their order. */
  lemma RequestVerdict(m: Model, request: Request)
    requires Inv(m)
    ensures var r := IncorporateRequest(m, request);
            if !Unused(m, request.invocation) then r == Err(IdempotencyConflict)
            else if !InQueueOrder(m.order, Ids(request.items)) then r == Err(InvalidInput)
            else if !AllTakeable(m, request.items) then
              r == Err(if FirstIsOutdated(m, request.items) then StaleRevision else InvalidInput)
            else if !AllDepsTaken(m, request.items) then r == Err(InvalidInput)
            else r.Ok?
  {
    assert NoDup(m.order) && RowsOk(m.rows);
    assert forall id | id in m.order :: Latest(m.rows, id).Some?;
    hide Inv, NoDup, RowsOk, Latest, ItemDepsIncluded, DepsTaken, Takeable, InQueueOrder, FirstUntakeable, Outdated, Current, Known,
      FirstItemError, Keep, MarkTaken, Drop;
    var items := request.items;
    QueueOrderIs(m.order, Ids(items));
    if InQueueOrder(m.order, Ids(items)) {
      QueuedAreKnown(m, items);
      ItemsVerdict(m, items);
      if AllTakeable(m, items) {
        TakeableDeps(m, items);
      }
    }
  }

  lemma TakeableDeps(m: Model, items: seq<Selection>)
    requires Inv(m) && AllTakeable(m, items)
    ensures forall t | 0 <= t < |items| :: ItemDepsIncluded(m, items, t) <==> DepsTaken(m, items, t)
  {
    hide Inv, ItemDepsIncluded, DepsTaken, Takeable;
    forall t | 0 <= t < |items| ensures ItemDepsIncluded(m, items, t) <==> DepsTaken(m, items, t) {
      assert items[t] in items;
      TakeableIsCurrent(m, items[t]);
      DepsVerdict(m, items, t);
    }
  }

  lemma TakeableIsCurrent(m: Model, s: Selection)
    requires Takeable(m, s)
    ensures Current(m, s)
  {
  }

  lemma NonzeroItems(m: Model, items: seq<Selection>)
    requires RowsOk(m.rows)
    ensures (forall s | s in items :: Takeable(m, s)) ==> Nonzero(items)
    ensures (forall i | 0 <= i < |items| :: items[i].revision != 0) <==> Nonzero(items)
  {
    hide RowsOk, Current;
    forall s | s in items && Takeable(m, s) ensures s.revision != 0 {
      PendingVerdict(m, s);
    }
  }

  lemma QueuedAreKnown(m: Model, items: seq<Selection>)
    requires InQueueOrder(m.order, Ids(items)) && forall id | id in m.order :: Latest(m.rows, id).Some?
    ensures forall s | s in items :: Known(m, s.id)
  {
    forall s | s in items ensures Known(m, s.id) {
      var t :| 0 <= t < |items| && items[t] == s;
      assert Ids(items)[t] in Ids(items);
      KnownIsLatest(m, s.id);
    }
  }

  // ----- every command -----

  /**
    On every ledger of a run: a command is accepted exactly when the ledger and its selection fit, and
    each error is given exactly by what the command conflicts with, misses or lags behind; any other
    refusal is InvalidInput.
   */
  lemma CommandVerdict(m: Model, command: Command, author: nat)
    requires Inv(m)
    ensures Verdict(m, command, Apply(m, command, author))
  {
    hide Inv, Verdict, Apply;
    match command
    case Enqueue(_, _, _) => EnqueueVerdict(m, command, author);
    case Edit(_, _) => EditVerdict(m, command, author);
    case Hold(_, _) => HoldVerdict(m, command, author);
    case Withdraw(_) => WithdrawVerdict(m, command, author);
    case Move(_, _) => MoveVerdict(m, command, author);
    case Reorder(_) => ReorderVerdict(m, command, author);
    case Correct(_, _, _) => CorrectVerdict(m, command, author);
    case Incorporate(_) => IncorporateVerdict(m, command, author);
  }

  /** Production's verdict on every ledger it accepts: the same, with lists over 65535 entries refused as InvalidInput. */
  lemma ProductionVerdict(m: Model, command: Command, author: nat)
    requires ValidateError(m).None?
    ensures var r := ProdApply(m, command, author);
            var long := match command
                        case Enqueue(_, _, dependencies) => |dependencies| > 65535
                        case Incorporate(request) => |request.items| > 65535
                        case _ => false;
            && (r.Ok? <==> Accepts(m, command) && !long)
            && (r == Err(IdempotencyConflict) <==> Conflicts(m, command))
            && (r == Err(NotFound) <==> Misses(m, command))
            && (r == Err(StaleRevision) <==> Lags(m, command))
            && r != Err(Capacity)
  {
    hide Inv, Sized, ValidateError, Apply, ProdApply, Accepts, Conflicts, Misses, Lags, ConstructorValid;
    ValidateAcceptsExactly(m);
    ProductionAnswers(m, command, author);
    CommandVerdict(m, command, author);
    NotConstructed(m, command, author);
  }
}
