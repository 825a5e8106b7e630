/**
  The production ledger (`control/inputs/transition.rs`), which defers most
  checks to one closing `validate`, against the list model, which checks as it
  goes.  They agree on every command of every run, error for error, except
  that production also bounds the length of a dependency or item list.
 */
module LedgerProduction {
  import opened Common
  import opened LedgerModel
  import opened LedgerInvariant
  import opened LedgerSteps

  const MAX_LIST := 65535

  // ----- the production checks -----

  /** The conditions of `validate_revision`; authors are nonzero by construction. */
  predicate RevisionValid(rows: seq<Row>, k: nat)
    requires k < |rows|
  {
    var r := rows[k];
    var previous := LatestBefore(rows, k, r.selected.id);
    && r.selected.revision == (if previous.Some? then rows[previous.value].selected.revision + 1 else 1)
    && (previous.Some? ==> rows[previous.value].state == Superseded)
    && |r.dependencies| <= MAX_LIST
    && |Members(r.dependencies)| == |r.dependencies|
    && (forall d | d in r.dependencies :: d != r.selected.id && LatestBefore(rows, k, d).Some?)
    && (r.correction.Some? ==>
          exists j | 0 <= j < k :: rows[j].selected == r.correction.value && rows[j].state == Incorporated)
    && (r.state == Incorporated <==> r.invocation.Some?)
    && !(Latest(rows, r.selected.id).Some? && Latest(rows, r.selected.id).value.selected == r.selected
         && r.state == Superseded)
  }

  predicate OrderAccepted(m: Model) {
    var pending := set k | 0 <= k < |m.rows| && m.rows[k].state.Pending() :: m.rows[k].selected.id;
    && |m.order| == |pending|
    && Members(m.order) == pending
    && forall i | 0 <= i < |m.order| ::
         Latest(m.rows, m.order[i]).Some?
         && forall d | d in Latest(m.rows, m.order[i]).value.dependencies ::
              IsIn(m.rows, d, Incorporated) || d in m.order[..i]
  }

  /** `incorporated` holds the identities of all items bound so far. */
  function ItemsError(rows: seq<Row>, invocation: nat, items: seq<Selection>, incorporated: seq<nat>): Option<ControlError> {
    if items == [] then None
    else
      var earlier := ItemsError(rows, invocation, Init(items), incorporated);
      var row := Exact(rows, Last(items));
      var before := incorporated + Ids(Init(items));
      if earlier.Some? then earlier
      else if row.Err? then Some(row.error)
      else if row.value.state != Incorporated || row.value.invocation != Some(invocation)
              || (exists d | d in row.value.dependencies :: d !in before) || Last(items).id in before
      then Some(InvalidInput)
      else None
  }

  function BindingsError(rows: seq<Row>, requests: seq<Request>): Option<ControlError> {
    if requests == [] then None
    else
      var earlier := BindingsError(rows, Init(requests));
      var request := Last(requests);
      if earlier.Some? then earlier
      else if (exists i | 0 <= i < |requests| - 1 :: requests[i].invocation == request.invocation)
              || |request.items| > MAX_LIST
      then Some(InvalidInput)
      else ItemsError(rows, request.invocation, request.items, Ids(Flat(Init(requests))))
  }

  function IncorporatedRows(rows: seq<Row>): seq<Selection> {
    if rows == [] then []
    else IncorporatedRows(Init(rows)) + if Last(rows).state == Incorporated then [Last(rows).selected] else []
  }

  /** `validate`: what is wrong with the ledger, if anything. */
  function ValidateError(m: Model): Option<ControlError> {
    if m.generation == 0 && m != EMPTY then Some(InvalidInput)
    else if exists k | 0 <= k < |m.rows| :: !RevisionValid(m.rows, k) then Some(InvalidInput)
    else if !OrderAccepted(m) then Some(InvalidInput)
    else if BindingsError(m.rows, m.requests).Some? then BindingsError(m.rows, m.requests)
    else if |IncorporatedRows(m.rows)| != |Flat(m.requests)| then Some(InvalidInput)
    else None
  }

  // ----- the production transitions -----

  function ProdEnqueue(m: Model, id: nat, author: nat, text: string, dependencies: seq<nat>,
                       correction: Option<Selection>): Result<Model>
  {
    if LatestIndex(m.rows, id).Some? then Err(IdempotencyConflict)
    else Ok(m.(rows := m.rows + [Row(Selection(id, 1), author, text, dependencies, Queued, correction, None)],
               order := m.order + [id]))
  }

  /** Items are checked and marked one after the other. */
  function ProdMark(rows: seq<Row>, items: seq<Selection>, invocation: nat): Result<seq<Row>> {
    if items == [] then Ok(rows)
    else
      var earlier := ProdMark(rows, Init(items), invocation);
      if earlier.Err? then earlier
      else
        match PendingIndex(earlier.value, Last(items))
        case Err(e) => Err(e)
        case Ok(k) =>
          if earlier.value[k].state != Queued then Err(InvalidInput)
          else Ok(earlier.value[k := earlier.value[k].(state := Incorporated, invocation := Some(invocation))])
  }

  function ProdIncorporate(m: Model, request: Request): Result<Model> {
    var ids := Ids(request.items);
    if exists i | 0 <= i < |m.requests| :: m.requests[i].invocation == request.invocation then Err(IdempotencyConflict)
    else if Keep(m.order, ids) != ids then Err(InvalidInput)
    else
      match ProdMark(m.rows, request.items, request.invocation)
      case Err(e) => Err(e)
      case Ok(rows) => Ok(m.(rows := rows, order := Drop(m.order, ids), requests := m.requests + [request]))
  }

  function ProdMutate(m: Model, command: Command, author: nat): Result<Model> {
    match command
    case Enqueue(id, text, dependencies) => ProdEnqueue(m, id, author, text, dependencies, None)
    case Correct(original, id, text) =>
      (match Exact(m.rows, original)
       case Err(e) => Err(e)
       case Ok(row) =>
         if row.state != Incorporated then Err(InvalidInput)
         else ProdEnqueue(m, id, author, text, [original.id], Some(original)))
    case Reorder(order) =>
      if |order| != |m.order| || Members(order) != Members(m.order) then Err(InvalidInput)
      else Ok(m.(order := order))
    case Incorporate(request) => ProdIncorporate(m, request)
    case Edit(_, _) => Mutate(m, command, author)
    case Hold(_, _) => Mutate(m, command, author)
    case Withdraw(_) => Mutate(m, command, author)
    case Move(_, _) => Mutate(m, command, author)
  }

  function ProdApply(m: Model, command: Command, author: nat): Result<Model> {
    if !ConstructorValid(command) then Err(InvalidInput)
    else if ValidateError(m).Some? then Err(ValidateError(m).value)
    else
      match ProdMutate(m, command, author)
      case Err(e) => Err(e)
      case Ok(next) =>
        var n := Advance(next, command);
        if ValidateError(n).Some? then Err(ValidateError(n).value) else Ok(n)
  }

  // ----- validate accepts exactly the invariant -----

  ghost predicate Sized(m: Model) {
    && (forall k :: 0 <= k < |m.rows| ==> |m.rows[k].dependencies| <= MAX_LIST)
    && (forall i :: 0 <= i < |m.requests| ==> |m.requests[i].items| <= MAX_LIST)
  }

  lemma PreviousRow(rows: seq<Row>, k: nat)
    requires RowsOk(rows) && k < |rows|
    ensures var previous := LatestBefore(rows, k, rows[k].selected.id);
            && (previous.Some? ==> rows[previous.value].state == Superseded
                                   && rows[k].selected.revision == rows[previous.value].selected.revision + 1)
            && (previous.None? ==> rows[k].selected.revision == 1)
  {
    assert RowOk(rows, k);
    var previous := LatestBefore(rows, k, rows[k].selected.id);
    if previous.Some? {
      assert RowOk(rows, previous.value);
      assert HasAfter(rows, previous.value, rows[k].selected.id);
      var j :| 0 <= j < k && rows[j].selected == Selection(rows[k].selected.id, rows[k].selected.revision - 1);
      assert j <= previous.value;
    }
  }

  lemma RowValid(rows: seq<Row>, k: nat)
    requires RowsOk(rows) && k < |rows|
    ensures RevisionValid(rows, k) <==> |rows[k].dependencies| <= MAX_LIST
  {
    assert RowOk(rows, k);
    PreviousRow(rows, k);
    NoDupSetSize(rows[k].dependencies);
    LatestIsCurrent(rows, k);
    forall d | d in rows[k].dependencies ensures LatestBefore(rows, k, d).Some? { assert HasBefore(rows, k, d); }
    if rows[k].correction.Some? {
      assert ExactBefore(rows, k, rows[k].correction.value, true);
    }
  }

  lemma OrderCheckAgrees(m: Model)
    requires RowsOk(m.rows) && OrderOk(m.rows, m.order)
    ensures OrderAccepted(m) <==> OrderValid(m)
  {
    var pending := set k | 0 <= k < |m.rows| && m.rows[k].state.Pending() :: m.rows[k].selected.id;
    NoDupSetSize(m.order);
    forall id ensures id in m.order <==> id in pending {
      if id in m.order {
        assert m.rows[LatestIndex(m.rows, id).value].state.Pending();
      }
    }
    assert Members(m.order) == pending;
    forall i | 0 <= i < |m.order|
      ensures PositionValid(m, i) <==>
              Latest(m.rows, m.order[i]).Some?
              && forall d | d in Latest(m.rows, m.order[i]).value.dependencies ::
                   IsIn(m.rows, d, Incorporated) || d in m.order[..i]
    {
      forall d ensures DepMet(m, i, d) <==> IsIn(m.rows, d, Incorporated) || d in m.order[..i] {
        assert d in m.order[..i] ==> d in m.order;
      }
    }
  }

  /** One request's items pass exactly when they are bound, fresh and depend only on what precedes them. */
  ghost predicate ItemPasses(rows: seq<Row>, v: nat, items: seq<Selection>, incorporated: seq<nat>, t: nat)
    requires t < |items|
  {
    var row := Exact(rows, items[t]);
    var before := incorporated + Ids(items)[..t];
    row.Ok? && row.value.state == Incorporated && row.value.invocation == Some(v)
    && (forall d | d in row.value.dependencies :: d in before) && items[t].id !in before
  }

  lemma ItemPassesFront(rows: seq<Row>, v: nat, items: seq<Selection>, incorporated: seq<nat>, t: nat)
    requires items != [] && t < |items| - 1
    ensures ItemPasses(rows, v, items, incorporated, t) <==> ItemPasses(rows, v, Init(items), incorporated, t)
  {
    assert Ids(items)[..t] == Ids(Init(items))[..t];
  }

  lemma LastItemPasses(rows: seq<Row>, v: nat, items: seq<Selection>, incorporated: seq<nat>)
    requires items != [] && ItemsError(rows, v, Init(items), incorporated).None?
    ensures ItemsError(rows, v, items, incorporated) ==
            if ItemPasses(rows, v, items, incorporated, |items| - 1) then None
            else if Exact(rows, Last(items)).Err? then Some(StaleRevision) else Some(InvalidInput)
  {
    assert Ids(items)[..|items| - 1] == Ids(Init(items));
  }

  /** The check reports the first item that does not pass: unknown selections as stale, all else as invalid. */
  lemma {:induction false} ItemsErrorExact(rows: seq<Row>, v: nat, items: seq<Selection>, incorporated: seq<nat>)
    ensures var error := ItemsError(rows, v, items, incorporated);
            && (error.None? <==> forall t | 0 <= t < |items| :: ItemPasses(rows, v, items, incorporated, t))
            && (error.Some? ==>
                  exists t :: 0 <= t < |items| && !ItemPasses(rows, v, items, incorporated, t)
                              && (forall u | 0 <= u < t :: ItemPasses(rows, v, items, incorporated, u))
                              && error.value == if Exact(rows, items[t]).Err? then StaleRevision else InvalidInput)
  {
    hide ItemPasses, Exact;
    if items != [] {
      var front := Init(items);
      ItemsErrorExact(rows, v, front, incorporated);
      forall t | 0 <= t < |front|
        ensures ItemPasses(rows, v, items, incorporated, t) <==> ItemPasses(rows, v, front, incorporated, t)
      {
        ItemPassesFront(rows, v, items, incorporated, t);
      }
      if ItemsError(rows, v, front, incorporated).None? {
        LastItemPasses(rows, v, items, incorporated);
      } else {
        EarlierError(rows, v, items, incorporated);
        var t :| 0 <= t < |front| && !ItemPasses(rows, v, front, incorporated, t)
                 && (forall u | 0 <= u < t :: ItemPasses(rows, v, front, incorporated, u))
                 && ItemsError(rows, v, front, incorporated).value ==
                    if Exact(rows, front[t]).Err? then StaleRevision else InvalidInput;
        assert front[t] == items[t];
      }
    }
  }

  lemma EarlierError(rows: seq<Row>, v: nat, items: seq<Selection>, incorporated: seq<nat>)
    requires items != [] && ItemsError(rows, v, Init(items), incorporated).Some?
    ensures ItemsError(rows, v, items, incorporated) == ItemsError(rows, v, Init(items), incorporated)
  {
  }

  /** Requests that satisfy the invariant, and are small, have consistent bindings. */
  lemma {:induction false} BindingsPass(rows: seq<Row>, requests: seq<Request>, k: nat)
    requires RowsOk(rows) && RequestsOk(rows, requests) && k <= |requests|
    requires forall i :: 0 <= i < |requests| ==> |requests[i].items| <= MAX_LIST
    ensures BindingsError(rows, requests[..k]).None?
  {
    if k > 0 {
      var front, request := requests[..k - 1], requests[k - 1];
      BindingsPass(rows, requests, k - 1);
      assert Init(requests[..k]) == front && Last(requests[..k]) == request;
      RequestPasses(rows, requests, k - 1);
      hide RowsOk, RequestsOk, ItemPasses, Exact, ItemsError, Flat;
      ItemsErrorExact(rows, request.invocation, request.items, Ids(Flat(front)));
    }
  }

  lemma RequestPasses(rows: seq<Row>, requests: seq<Request>, k: nat)
    requires RowsOk(rows) && RequestsOk(rows, requests) && k < |requests|
    ensures forall s | s in requests[k].items :: Exact(rows, s).Ok?
    ensures forall t | 0 <= t < |requests[k].items| ::
              ItemPasses(rows, requests[k].invocation, requests[k].items, Ids(Flat(requests[..k])), t)
  {
    var request, before, flat := requests[k], Flat(requests[..k]), Flat(requests);
    FlatPrefix(requests, k + 1);
    forall s | s in request.items ensures Bound(rows, request.invocation, s) && Exact(rows, s) == Ok(Latest(rows, s.id).value) {
      assert Listed(requests, request.invocation, s);
      BoundExact(rows, request.invocation, s);
    }
    forall t | 0 <= t < |request.items|
      ensures ItemPasses(rows, request.invocation, request.items, Ids(before), t)
    {
      assert request.items[t] in request.items;
      PlacedItemPasses(rows, request, before, flat, t);
    }
  }

  lemma PlacedItemPasses(rows: seq<Row>, request: Request, before: seq<Selection>, flat: seq<Selection>, t: nat)
    requires t < |request.items| && before + request.items <= flat && NoDup(Ids(flat))
    requires var s := request.items[t]; Bound(rows, request.invocation, s) && Exact(rows, s) == Ok(Latest(rows, s.id).value)
    requires DepsBefore(rows, flat, |before| + t)
    ensures ItemPasses(rows, request.invocation, request.items, Ids(before), t)
  {
    var u := |before| + t;
    assert flat[u] == request.items[t];
    assert Ids(flat)[..u] == Ids(before) + Ids(request.items)[..t];
    assert Ids(flat)[u] !in Ids(flat)[..u];
  }

  lemma BoundExact(rows: seq<Row>, v: nat, s: Selection)
    requires RowsOk(rows) && Bound(rows, v, s)
    ensures Exact(rows, s) == Ok(Latest(rows, s.id).value)
  {
  }

  lemma {:induction false} FlatPrefix(requests: seq<Request>, k: nat)
    requires 0 < k <= |requests|
    ensures Flat(requests[..k - 1]) + requests[k - 1].items <= Flat(requests)
  {
    if k == |requests| {
      assert requests[..k - 1] == Init(requests);
    } else {
      FlatPrefix(Init(requests), k);
      assert Init(requests)[..k - 1] == requests[..k - 1];
    }
  }

  lemma {:induction false} IncorporatedRowsHold(rows: seq<Row>, k: nat, s: Selection)
    requires k <= |rows|
    ensures s in IncorporatedRows(rows[..k]) <==>
            exists j :: 0 <= j < k && rows[j].selected == s && rows[j].state == Incorporated
  {
    if k > 0 {
      IncorporatedRowsHold(rows, k - 1, s);
      assert Init(rows[..k]) == rows[..k - 1] && Last(rows[..k]) == rows[k - 1];
    }
  }

  lemma {:induction false} IncorporatedRowsOnce(rows: seq<Row>, k: nat)
    requires RowsOk(rows) && k <= |rows|
    ensures NoDup(IncorporatedRows(rows[..k]))
  {
    hide RowOk;
    if k > 0 {
      IncorporatedRowsOnce(rows, k - 1);
      var before, s := IncorporatedRows(rows[..k - 1]), rows[k - 1].selected;
      assert Init(rows[..k]) == rows[..k - 1] && Last(rows[..k]) == rows[k - 1];
      IncorporatedRowsHold(rows, k - 1, s);
      NoDupConcat(before, [s]);
    }
  }

  lemma {:induction false} SameMembersSameLength<T(!new)>(a: seq<T>, b: seq<T>)
    requires NoDup(a) && NoDup(b) && forall x :: x in a <==> x in b
    ensures |a| == |b|
  {
    assert b != [] ==> b[0] in b;
    if a != [] {
      assert Last(a) in a;
      var j :| 0 <= j < |b| && b[j] == Last(a);
      var b' := b[..j] + b[j + 1..];
      forall x ensures x in Init(a) <==> x in b' {
        if x in Init(a) {
          var h :| 0 <= h < |a| - 1 && a[h] == x;
          assert x in a && x != Last(a);
          var i :| 0 <= i < |b| && b[i] == x;
          assert if i < j then b'[i] == x else b'[i - 1] == x;
        }
        if x in b' {
          var i :| 0 <= i < |b'| && b'[i] == x;
          var i' := if i < j then i else i + 1;
          assert x == b[i'] && x in b && x in a;
          var h :| 0 <= h < |a| && a[h] == x;
          assert Init(a)[h] == x;
        }
      }
      SameMembersSameLength(Init(a), b');
    }
  }

  lemma IncorporatedCount(m: Model)
    requires RowsOk(m.rows) && RequestsOk(m.rows, m.requests)
    ensures |IncorporatedRows(m.rows)| == |Flat(m.requests)|
  {
    var taken, flat := IncorporatedRows(m.rows), Flat(m.requests);
    assert m.rows[..|m.rows|] == m.rows;
    IncorporatedRowsOnce(m.rows, |m.rows|);
    forall s ensures s in taken <==> s in flat {
      IncorporatedRowsHold(m.rows, |m.rows|, s);
      FlatListed(m.requests, s);
      if s in taken {
        var j :| 0 <= j < |m.rows| && m.rows[j].selected == s && m.rows[j].state == Incorporated;
        assert Listed(m.requests, m.rows[j].invocation.value, s);
      }
      if s in flat {
        var v :| Listed(m.requests, v, s);
        assert Bound(m.rows, v, s);
      }
    }
    assert NoDup(flat) by {
      forall i, j | 0 <= i < j < |flat| ensures flat[i] != flat[j] { assert Ids(flat)[i] != Ids(flat)[j]; }
    }
    SameMembersSameLength(taken, flat);
  }

  lemma ShapedBindings(m: Model)
    requires Shape(m)
    ensures Sized(m) ==> BindingsError(m.rows, m.requests).None?
    ensures |IncorporatedRows(m.rows)| == |Flat(m.requests)|
    ensures m.rows == [] ==> m.order == []
  {
    IncorporatedCount(m);
    if Sized(m) {
      BindingsPass(m.rows, m.requests, |m.requests|);
      assert m.requests[..|m.requests|] == m.requests;
    }
    assert m.order != [] ==> m.order[0] in m.order;
  }

  ghost predicate ShortDependencies(m: Model) {
    forall k :: 0 <= k < |m.rows| ==> |m.rows[k].dependencies| <= MAX_LIST
  }

  lemma ShapedRevisions(m: Model)
    requires RowsOk(m.rows)
    ensures (forall k | 0 <= k < |m.rows| :: RevisionValid(m.rows, k)) <==> ShortDependencies(m)
  {
    forall k | 0 <= k < |m.rows|
      ensures RevisionValid(m.rows, k) <==> |m.rows[k].dependencies| <= MAX_LIST
    {
      RowValid(m.rows, k);
    }
  }

  /** On a shaped and small ledger, production's validation is the model's closing check. */
  lemma ValidateIsClosingCheck(m: Model)
    requires Shape(m)
    ensures Sized(m) ==> ValidateError(m) == if Admissible(m) then None else Some(InvalidInput)
    ensures !ShortDependencies(m) ==> ValidateError(m) == Some(InvalidInput)
  {
    var revisions := forall k | 0 <= k < |m.rows| :: RevisionValid(m.rows, k);
    assert revisions <==> ShortDependencies(m) by { ShapedRevisions(m); }
    assert OrderAccepted(m) <==> OrderValid(m) by { OrderCheckAgrees(m); }
    ShapedBindings(m);
    ClosingCheck(m);
  }

  /** The same statement from the outcomes of the separate checks. */
  lemma ClosingCheck(m: Model)
    requires (forall k | 0 <= k < |m.rows| :: RevisionValid(m.rows, k)) <==> ShortDependencies(m)
    requires OrderAccepted(m) <==> OrderValid(m)
    requires Sized(m) ==> BindingsError(m.rows, m.requests).None?
    requires |IncorporatedRows(m.rows)| == |Flat(m.requests)|
    requires m.rows == [] ==> m.order == []
    ensures Sized(m) ==> ValidateError(m) == if Admissible(m) then None else Some(InvalidInput)
    ensures !ShortDependencies(m) ==> ValidateError(m) == Some(InvalidInput)
  {
  }

  // ----- the transitions agree -----

  ghost predicate Oversized(command: Command) {
    (command.Enqueue? && |command.dependencies| > MAX_LIST)
    || (command.Incorporate? && |command.request.items| > MAX_LIST)
  }

  /** Checking and marking item by item is the same as checking all and then marking. */
  lemma {:induction false} MarkAgrees(rows: seq<Row>, items: seq<Selection>, v: nat)
    requires NoDup(Ids(items))
    ensures var error := FirstItemError(rows, items);
            ProdMark(rows, items, v) == if error.Some? then Err(error.value) else Ok(MarkTaken(rows, items, v))
  {
    if items == [] {
      assert MarkTaken(rows, items, v) == rows;
    } else {
      var front, s := Init(items), Last(items);
      assert Ids(front) == Init(Ids(items));
      MarkAgrees(rows, front, v);
      if FirstItemError(rows, front).None? {
        var done := MarkTaken(rows, front, v);
        LookupSame(rows, done, s.id);
        forall u | u in front ensures u.id != s.id {
          var t :| 0 <= t < |front| && front[t] == u;
          assert Ids(items)[t] == u.id && Ids(items)[|items| - 1] == s.id;
        }
        var k := LatestIndex(rows, s.id);
        assert k.Some? ==> done[k.value] == rows[k.value];
        if PendingIndex(rows, s).Ok? {
          assert items[..|items| - 1] == front && items[..|items|] == items;
          MarkOneMore(rows, items, |items| - 1, k.value, v);
        }
      }
    }
  }

  lemma {:induction false} BindingsErrorKind(rows: seq<Row>, requests: seq<Request>)
    requires forall s | s in Flat(requests) :: Exact(rows, s).Ok?
    ensures BindingsError(rows, requests).Some? ==> BindingsError(rows, requests).value == InvalidInput
  {
    if requests != [] {
      BindingsErrorKind(rows, Init(requests));
      ItemsErrorExact(rows, Last(requests).invocation, Last(requests).items, Ids(Flat(Init(requests))));
    }
  }

  lemma ListedExact(m: Model, s: Selection)
    requires Inv(m) && s in Flat(m.requests)
    ensures exists k :: 0 <= k < |m.rows| && m.rows[k].selected == s
  {
    FlatListed(m.requests, s);
    var v :| Listed(m.requests, v, s);
    assert Bound(m.rows, v, s);
  }

  lemma AllExact(m: Model, request: Request, n: Model)
    requires Inv(m) && FirstItemError(m.rows, request.items).None? && n.requests == m.requests + [request]
    requires n.rows == MarkTaken(m.rows, request.items, request.invocation)
    ensures forall s | s in Flat(n.requests) :: Exact(n.rows, s).Ok?
  {
    FlatGrows(m.requests, request);
    ItemsQueued(m.rows, request.items);
    hide Inv, Flat, FirstItemError, Taken;
    forall s | s in Flat(n.requests) ensures Exact(n.rows, s).Ok? {
      if s in Flat(m.requests) {
        ListedExact(m, s);
        var k :| 0 <= k < |m.rows| && m.rows[k].selected == s;
        assert n.rows[k].selected == s;
      } else {
        assert n.rows[PendingIndex(m.rows, s).value].selected == s;
      }
    }
  }

  /** A request that does not pass the item check makes the whole validation fail, always as invalid. */
  lemma FailingRequest(n: Model, requests: seq<Request>, request: Request)
    requires n.requests == requests + [request] && (forall s | s in Flat(n.requests) :: Exact(n.rows, s).Ok?)
    requires |request.items| > MAX_LIST || ItemsError(n.rows, request.invocation, request.items, Ids(Flat(requests))).Some?
    ensures BindingsError(n.rows, n.requests) == Some(InvalidInput)
  {
    hide Flat, Exact, ItemsError;
    assert Init(n.requests) == requests && Last(n.requests) == request;
    BindingsErrorKind(n.rows, n.requests);
  }

  lemma FailingBindings(n: Model)
    requires BindingsError(n.rows, n.requests) == Some(InvalidInput)
    ensures ValidateError(n) == Some(InvalidInput)
  {
    hide BindingsError, OrderAccepted, RevisionValid, IncorporatedRows;
  }

  /** Bindings that are too long, or that use an input too early, are refused with `InvalidInput`. */
  lemma BadRequestRefused(m: Model, request: Request, n: Model)
    requires Inv(m) && ProdIncorporate(m, request) == Ok(n)
    requires FirstItemError(m.rows, request.items).None?
    requires n.rows == MarkTaken(m.rows, request.items, request.invocation)
    requires |request.items| > MAX_LIST || exists t | 0 <= t < |request.items| :: !ItemDepsIncluded(m, request.items, t)
    ensures ValidateError(n) == Some(InvalidInput)
  {
    assert n.requests == m.requests + [request];
    hide Inv, Flat, Exact, ItemDepsIncluded, ItemsError, FirstItemError, MarkTaken, ProdIncorporate, ItemPasses, PendingIndex,
      ValidateError;
    AllExact(m, request, n);
    var items := request.items;
    if |items| <= MAX_LIST {
      var t :| 0 <= t < |items| && !ItemDepsIncluded(m, items, t);
      ItemsQueued(m.rows, items);
      TooEarlyFails(m, items, t, n.rows, request.invocation);
      ItemsErrorExact(n.rows, request.invocation, items, Ids(Flat(m.requests)));
    }
    FailingRequest(n, m.requests, request);
    FailingBindings(n);
  }

  lemma TooEarlyFails(m: Model, items: seq<Selection>, t: nat, rows: seq<Row>, v: nat)
    requires Inv(m) && t < |items| && !ItemDepsIncluded(m, items, t)
    requires PendingIndex(m.rows, items[t]).Ok? && rows == MarkTaken(m.rows, items, v)
    ensures !ItemPasses(rows, v, items, Ids(Flat(m.requests)), t)
  {
  }

  /** Production's raw transition either ends like the model's, or is stopped by its validation. */
  ghost predicate Agrees(model: Result<Model>, prod: Result<Model>, command: Command) {
    match prod
    case Err(e) => model == Err(e)
    case Ok(n) =>
      if model == Ok(n) && !Oversized(command) then Shape(n) && Sized(n)
      else (model == Ok(n) || model == Err(InvalidInput)) && ValidateError(Advance(n, command)) == Some(InvalidInput)
  }

  lemma IncorporateAgrees(m: Model, request: Request)
    requires Inv(m) && Sized(m)
    ensures Agrees(IncorporateRequest(m, request), ProdIncorporate(m, request), Incorporate(request))
  {
    var items, v := request.items, request.invocation;
    if Keep(m.order, Ids(items)) == Ids(items) {
      KeepNoDup(m.order, Ids(items));
      MarkAgrees(m.rows, items, v);
      var prod := ProdIncorporate(m, request);
      if prod.Ok? {
        if |items| > MAX_LIST || exists t | 0 <= t < |items| :: !ItemDepsIncluded(m, items, t) {
          BadRequestRefused(m, request, prod.value);
        } else {
          IncorporateStep(m, request, prod.value);
        }
      }
    }
  }

  lemma EnqueueAgrees(m: Model, command: Command, author: nat)
    requires Inv(m) && Sized(m) && command.Enqueue?
    ensures Agrees(Mutate(m, command, author), ProdMutate(m, command, author), command)
  {
    var prod, model := ProdMutate(m, command, author), Mutate(m, command, author);
    if prod.Ok? {
      var n := Advance(prod.value, command);
      var row := Last(n.rows);
      if model.Ok? {
        MutateKeepsShape(m, command, author, prod.value);
        if Oversized(command) {
          assert n.rows[|m.rows|].dependencies == command.dependencies;
          ValidateIsClosingCheck(n);
        }
      } else {
        var i :| 0 <= i < |row.dependencies|
                 && (row.dependencies[i] == row.selected.id || LatestIndex(m.rows, row.dependencies[i]).None?
                     || row.dependencies[i] in row.dependencies[..i]);
        NoDupSetSize(row.dependencies);
        assert forall j :: 0 <= j < |m.rows| ==> n.rows[j] == m.rows[j];
        assert row.dependencies[i] in row.dependencies;
        assert !RevisionValid(n.rows, |m.rows|);
      }
    }
  }

  lemma MutateAgrees(m: Model, command: Command, author: nat)
    requires Inv(m) && Sized(m)
    ensures Agrees(Mutate(m, command, author), ProdMutate(m, command, author), command)
  {
    match command
    case Enqueue(_, _, _) => EnqueueAgrees(m, command, author);
    case Incorporate(request) => IncorporateAgrees(m, request);
    case Reorder(order) =>
      if |order| == |m.order| { ReorderAgrees(m.order, order); }
      PlainAgrees(m, command, author);
    case _ => PlainAgrees(m, command, author);
  }

  lemma ReorderAgrees(order: seq<nat>, proposal: seq<nat>)
    requires NoDup(order) && |proposal| == |order|
    ensures Members(proposal) == Members(order) <==> forall i | 0 <= i < |order| :: order[i] in proposal
  {
    assert forall x :: x in Members(order) <==> x in order;
    assert forall x :: x in Members(proposal) <==> x in proposal;
    if forall i | 0 <= i < |order| :: order[i] in proposal {
      ReorderIsPermutation(order, proposal);
      assert forall x :: x in proposal <==> x in multiset(proposal);
      assert forall x :: x in order <==> x in multiset(order);
      assert Members(proposal) == Members(order);
    }
  }

  /** Commands whose two transitions coincide. */
  lemma PlainAgrees(m: Model, command: Command, author: nat)
    requires Inv(m) && Sized(m) && !command.Enqueue? && !command.Incorporate?
    requires command.Reorder? && |command.order| == |m.order| ==>
               (Members(command.order) == Members(m.order) <==>
                forall i | 0 <= i < |m.order| :: m.order[i] in command.order)
    ensures Agrees(Mutate(m, command, author), ProdMutate(m, command, author), command)
  {
    hide Admissible, Members, MoveOrder, Drop;
    var model := Mutate(m, command, author);
    assert ProdMutate(m, command, author) == model;
    if model.Ok? {
      MutateKeepsShape(m, command, author, model.value);
      PlainKeepsSized(m, command, author, model.value);
    }
  }

  lemma PlainKeepsSized(m: Model, command: Command, author: nat, n: Model)
    requires Sized(m) && !command.Enqueue? && !command.Incorporate? && Mutate(m, command, author) == Ok(n)
    ensures Sized(n)
  {
  }

  /** A transition that both refuse before the closing check, or that both carry out. */
  lemma SameOutcome(m: Model, command: Command, author: nat, n: Model)
    requires Mutate(m, command, author) == Ok(n) && ProdMutate(m, command, author) == Ok(n)
    requires ConstructorValid(command) && ValidateError(m).None?
    requires Shape(n) && Sized(n)
    ensures ProdApply(m, command, author) == Apply(m, command, author)
    ensures ProdApply(m, command, author).Ok? ==> Sized(ProdApply(m, command, author).value)
  {
    hide Shape, Mutate, ProdMutate, Admissible, ValidateError, ConstructorValid, Sized;
    var next := Advance(n, command);
    AdvanceKeepsShape(n, command);
    ValidateIsClosingCheck(next);
  }

  lemma AdvanceKeepsShape(n: Model, command: Command)
    requires Shape(n) && Sized(n)
    ensures Shape(Advance(n, command)) && Sized(Advance(n, command))
  {
    hide RowsOk, OrderOk, RequestsOk;
  }

  /** A transition that production only refuses in its closing check. */
  lemma RefusedOutcome(m: Model, command: Command, author: nat, n: Model)
    requires ProdMutate(m, command, author) == Ok(n) && ValidateError(Advance(n, command)) == Some(InvalidInput)
    requires Mutate(m, command, author) == Ok(n) || Mutate(m, command, author) == Err(InvalidInput)
    requires Mutate(m, command, author) == Ok(n) ==> Oversized(command)
    requires ConstructorValid(command) && ValidateError(m).None?
    ensures ProdApply(m, command, author) == Err(InvalidInput)
    ensures Apply(m, command, author).Ok? ==> Oversized(command)
    ensures Apply(m, command, author).Err? ==> Apply(m, command, author) == Err(InvalidInput)
  {
    hide Mutate, ProdMutate, Admissible, ValidateError, ConstructorValid, Oversized;
  }

  lemma AgreementConcludes(m: Model, command: Command, author: nat)
    requires ValidateError(m).None? && ConstructorValid(command)
    requires Agrees(Mutate(m, command, author), ProdMutate(m, command, author), command)
    ensures var model := Apply(m, command, author);
            ProdApply(m, command, author) == if model.Ok? && Oversized(command) then Err(InvalidInput) else model
    ensures ProdApply(m, command, author).Ok? ==> Sized(ProdApply(m, command, author).value)
  {
    hide Mutate, ProdMutate, ValidateError, ConstructorValid, Oversized, Shape, Sized, Admissible;
    var prod := ProdMutate(m, command, author);
    if prod.Ok? {
      if Mutate(m, command, author) == prod && !Oversized(command) {
        SameOutcome(m, command, author, prod.value);
      } else {
        RefusedOutcome(m, command, author, prod.value);
      }
    }
  }

  /** One command on one well-formed ledger: the same successor or the same error, save for oversized lists. */
  lemma ProductionAgrees(m: Model, command: Command, author: nat)
    requires Inv(m) && Sized(m)
    ensures var model := Apply(m, command, author);
            ProdApply(m, command, author) == if model.Ok? && Oversized(command) then Err(InvalidInput) else model
    ensures ProdApply(m, command, author).Ok? ==> Sized(ProdApply(m, command, author).value)
  {
    hide Shape, Admissible, Sized, Mutate, ProdMutate, Oversized, ValidateError, ConstructorValid;
    ValidateIsClosingCheck(m);
    if ConstructorValid(command) {
      MutateAgrees(m, command, author);
      AgreementConcludes(m, command, author);
    }
  }
}
