/**
  Ledgers of unknown origin.  `validate` also guards every ledger that is read
  back from storage, so what it accepts is characterised here for all values:
  it is exactly the invariant of the other modules, with lists within the
  bound.  Hence every result about runs holds from any ledger read back, and
  the production transition is the model's on every ledger value whatever.
 */
module LedgerDecoded {
  import opened Common
  import opened LedgerModel
  import opened LedgerInvariant
  import opened LedgerSteps
  import opened LedgerProduction

  ghost predicate RevisionsValid(rows: seq<Row>) {
    forall k :: 0 <= k < |rows| ==> RevisionValid(rows, k)
  }

  // ----- revisions -----

  /** Every older row of an identity is superseded and carries a smaller revision. */
  lemma {:induction false} OlderRow(rows: seq<Row>, i: nat, j: nat)
    requires RevisionsValid(rows) && i < j < |rows| && rows[i].selected.id == rows[j].selected.id
    ensures rows[i].state == Superseded && rows[i].selected.revision < rows[j].selected.revision
    decreases j
  {
    assert RevisionValid(rows, j);
    var p := LatestBefore(rows, j, rows[j].selected.id).value;
    if i < p {
      OlderRow(rows, i, p);
    }
  }

  lemma AcceptedRow(rows: seq<Row>, k: nat)
    requires RevisionsValid(rows) && k < |rows|
    ensures RowOk(rows, k)
  {
    var r := rows[k];
    assert RevisionValid(rows, k);
    NoDupSetSize(r.dependencies);
    if HasAfter(rows, k, r.selected.id) {
      var j :| k < j < |rows| && rows[j].selected.id == r.selected.id;
      OlderRow(rows, k, j);
    } else {
      assert LatestIndex(rows, r.selected.id) == Some(k);
    }
    if r.selected.revision > 1 {
      var p := LatestBefore(rows, k, r.selected.id).value;
      assert rows[p].selected == Selection(r.selected.id, r.selected.revision - 1);
    }
    forall d | d in r.dependencies ensures HasBefore(rows, k, d) {
      var p := LatestBefore(rows, k, d).value;
      assert rows[p].selected.id == d;
    }
  }

  lemma AcceptedRows(rows: seq<Row>)
    requires RevisionsValid(rows)
    ensures RowsOk(rows)
  {
    hide RevisionsValid, RowOk;
    forall k | 0 <= k < |rows| ensures RowOk(rows, k) { AcceptedRow(rows, k); }
    forall i, j | 0 <= i < j < |rows| && rows[i].selected.id == rows[j].selected.id
      ensures rows[i].selected.revision < rows[j].selected.revision
    {
      OlderRow(rows, i, j);
    }
  }

  // ----- the order -----

  lemma AcceptedOrder(m: Model)
    requires RowsOk(m.rows) && OrderAccepted(m)
    ensures OrderOk(m.rows, m.order) && OrderValid(m)
  {
    NoDupSetSize(m.order);
    forall id | id in m.order
      ensures Latest(m.rows, id).Some? && Latest(m.rows, id).value.state.Pending()
    {
      assert id in Members(m.order);
      var k :| 0 <= k < |m.rows| && m.rows[k].state.Pending() && m.rows[k].selected.id == id;
      LatestIsCurrent(m.rows, k);
    }
    forall k | 0 <= k < |m.rows| && m.rows[k].state.Pending() ensures m.rows[k].selected.id in m.order {
      assert m.rows[k].selected.id in Members(m.order);
    }
    OrderCheckAgrees(m);
  }

  // ----- the bindings -----

  /** What passing the binding check says of each request in turn. */
  ghost predicate RequestBound(rows: seq<Row>, requests: seq<Request>, k: nat)
    requires k < |requests|
  {
    && |requests[k].items| <= MAX_LIST
    && (forall i :: 0 <= i < k ==> requests[i].invocation != requests[k].invocation)
    && (forall t | 0 <= t < |requests[k].items| ::
          ItemPasses(rows, requests[k].invocation, requests[k].items, Ids(Flat(requests[..k])), t))
  }

  lemma {:induction false} BindingsSay(rows: seq<Row>, requests: seq<Request>, k: nat)
    requires k < |requests| && BindingsError(rows, requests).None?
    ensures RequestBound(rows, requests, k)
  {
    var front := Init(requests);
    if k < |front| {
      BindingsSay(rows, front, k);
      assert front[..k] == requests[..k];
    } else {
      assert requests[..k] == front;
      ItemsErrorExact(rows, requests[k].invocation, requests[k].items, Ids(Flat(front)));
    }
  }

  /** In the concatenation of all requests each item is newest, bound, new and rests on earlier ones. */
  ghost predicate ItemPlaced(rows: seq<Row>, flat: seq<Selection>, t: nat)
    requires t < |flat|
  {
    DepsBefore(rows, flat, t) && flat[t].id !in Ids(flat)[..t]
  }

  lemma ExactIncorporated(rows: seq<Row>, s: Selection, v: nat)
    requires RowsOk(rows) && Exact(rows, s).Ok?
    requires Exact(rows, s).value.state == Incorporated && Exact(rows, s).value.invocation == Some(v)
    ensures Bound(rows, v, s) && Latest(rows, s.id) == Some(Exact(rows, s).value)
  {
    LatestIsCurrent(rows, ExactIndex(rows, s).value);
  }

  lemma PassingItemIsPlaced(rows: seq<Row>, before: seq<Selection>, v: nat, items: seq<Selection>, t: nat)
    requires RowsOk(rows) && t < |items| && ItemPasses(rows, v, items, Ids(before), t)
    ensures Bound(rows, v, items[t]) && ItemPlaced(rows, before + items, |before| + t)
  {
    ExactIncorporated(rows, items[t], v);
    hide RowsOk, Exact, Latest;
    var flat, u := before + items, |before| + t;
    assert flat[u] == items[t];
    assert Ids(flat)[..u] == Ids(before) + Ids(items)[..t];
  }

  lemma PlacedCarries(rows: seq<Row>, flat: seq<Selection>, more: seq<Selection>, t: nat)
    requires t < |flat| && ItemPlaced(rows, flat, t)
    ensures ItemPlaced(rows, flat + more, t)
  {
    assert Ids(flat + more)[..t] == Ids(flat)[..t];
  }

  lemma {:induction false} AllPlaced(rows: seq<Row>, requests: seq<Request>, k: nat)
    requires RowsOk(rows) && k <= |requests|
    requires forall i | 0 <= i < k :: RequestBound(rows, requests, i)
    ensures forall t | 0 <= t < |Flat(requests[..k])| :: ItemPlaced(rows, Flat(requests[..k]), t)
  {
    hide RowsOk, ItemPlaced, ItemPasses;
    if k == 0 {
      assert requests[..0] == [];
    } else {
      AllPlaced(rows, requests, k - 1);
      assert RequestBound(rows, requests, k - 1);
      var before, items, flat := Flat(requests[..k - 1]), requests[k - 1].items, Flat(requests[..k]);
      assert Init(requests[..k]) == requests[..k - 1];
      assert flat == before + items;
      forall t | 0 <= t < |flat| ensures ItemPlaced(rows, flat, t) {
        if t < |before| {
          PlacedCarries(rows, before, items, t);
        } else {
          PassingItemIsPlaced(rows, before, requests[k - 1].invocation, items, t - |before|);
        }
      }
    }
  }

  lemma PlacedOnce(rows: seq<Row>, flat: seq<Selection>)
    requires forall t | 0 <= t < |flat| :: ItemPlaced(rows, flat, t)
    ensures NoDup(Ids(flat)) && forall t | 0 <= t < |flat| :: DepsBefore(rows, flat, t)
  {
    hide DepsBefore;
    forall i, j | 0 <= i < j < |flat| ensures Ids(flat)[i] != Ids(flat)[j] {
      assert ItemPlaced(rows, flat, j);
      assert Ids(flat)[i] in Ids(flat)[..j];
    }
    forall t | 0 <= t < |flat| ensures DepsBefore(rows, flat, t) { assert ItemPlaced(rows, flat, t); }
  }

  lemma ListedIsBound(rows: seq<Row>, requests: seq<Request>, v: nat, s: Selection)
    requires RowsOk(rows) && forall k | 0 <= k < |requests| :: RequestBound(rows, requests, k)
    requires Listed(requests, v, s)
    ensures Bound(rows, v, s)
  {
    var k :| 0 <= k < |requests| && requests[k].invocation == v && s in requests[k].items;
    var t :| 0 <= t < |requests[k].items| && requests[k].items[t] == s;
    assert RequestBound(rows, requests, k);
    PassingItemIsPlaced(rows, Flat(requests[..k]), v, requests[k].items, t);
  }

  /** A duplicate-free list within another of the same length holds all its members. */
  lemma SameLengthSameMembers(a: seq<Selection>, b: seq<Selection>)
    requires NoDup(a) && |a| == |b| && forall x | x in a :: x in b
    ensures forall x | x in b :: x in a
  {
    var sa, sb := set x | x in a, set x | x in b;
    SetOfNoDup(a);
    SetOfSeq(b);
    assert sa <= sb;
    SubsetOfSameSize(sa, sb);
    forall x | x in b ensures x in a { assert x in sb; }
  }

  lemma {:induction false} SetOfNoDup(a: seq<Selection>)
    requires NoDup(a)
    ensures |set x | x in a| == |a|
  {
    if a != [] {
      SetOfNoDup(Init(a));
      assert (set x | x in a) == (set x | x in Init(a)) + {Last(a)};
    }
  }

  lemma {:induction false} SetOfSeq(a: seq<Selection>)
    ensures |set x | x in a| <= |a|
  {
    if a != [] {
      SetOfSeq(Init(a));
      assert (set x | x in a) == (set x | x in Init(a)) + {Last(a)};
    }
  }

  lemma {:induction false} SubsetOfSameSize(a: set<Selection>, b: set<Selection>)
    requires a <= b && |b| <= |a|
    ensures a == b
  {
    if a != {} {
      var x :| x in a;
      SubsetOfSameSize(a - {x}, b - {x});
    }
  }

  /** The count leaves no incorporated row outside the requests. */
  lemma IncorporatedIsListed(m: Model, k: nat)
    requires RowsOk(m.rows) && k < |m.rows| && m.rows[k].state == Incorporated
    requires NoDup(Ids(Flat(m.requests))) && |IncorporatedRows(m.rows)| == |Flat(m.requests)|
    requires forall v, s :: Listed(m.requests, v, s) ==> Bound(m.rows, v, s)
    ensures m.rows[k].invocation.Some? && Listed(m.requests, m.rows[k].invocation.value, m.rows[k].selected)
  {
    var taken, flat := IncorporatedRows(m.rows), Flat(m.requests);
    assert m.rows[..|m.rows|] == m.rows;
    IncorporatedRowsOnce(m.rows, |m.rows|);
    forall s | s in flat ensures s in taken {
      IncorporatedRowsHold(m.rows, |m.rows|, s);
      FlatListed(m.requests, s);
      var v :| Listed(m.requests, v, s);
      assert Bound(m.rows, v, s);
      assert m.rows[LatestIndex(m.rows, s.id).value].selected == s;
    }
    assert NoDup(flat) by {
      forall i, j | 0 <= i < j < |flat| ensures flat[i] != flat[j] { assert Ids(flat)[i] != Ids(flat)[j]; }
    }
    SameLengthSameMembers(flat, taken);
    var s := m.rows[k].selected;
    IncorporatedRowsHold(m.rows, |m.rows|, s);
    FlatListed(m.requests, s);
    var v :| Listed(m.requests, v, s);
    assert Bound(m.rows, v, s);
    LatestIsCurrent(m.rows, k);
  }

  lemma AcceptedRequests(m: Model)
    requires RowsOk(m.rows) && BindingsError(m.rows, m.requests).None?
    requires |IncorporatedRows(m.rows)| == |Flat(m.requests)|
    ensures RequestsOk(m.rows, m.requests)
    ensures forall i :: 0 <= i < |m.requests| ==> |m.requests[i].items| <= MAX_LIST
  {
    var rows, requests := m.rows, m.requests;
    hide RowsOk, BindingsError, Listed, Bound, DepsBefore, ItemPasses, Flat, ItemPlaced, IncorporatedRows;
    forall k | 0 <= k < |requests| ensures RequestBound(rows, requests, k) { BindingsSay(rows, requests, k); }
    AllPlaced(rows, requests, |requests|);
    assert requests[..|requests|] == requests;
    forall k | 0 <= k < |requests|
      ensures |requests[k].items| <= MAX_LIST
      ensures forall i :: 0 <= i < k ==> requests[i].invocation != requests[k].invocation
    {
      assert RequestBound(rows, requests, k);
    }
    PlacedOnce(rows, Flat(requests));
    forall v, s | Listed(requests, v, s) ensures Bound(rows, v, s) { ListedIsBound(rows, requests, v, s); }
    forall k | 0 <= k < |rows| && rows[k].state == Incorporated
      ensures rows[k].invocation.Some? && Listed(requests, rows[k].invocation.value, rows[k].selected)
    {
      IncorporatedIsListed(m, k);
    }
  }

  // ----- what is accepted -----

  lemma AcceptedShortDependencies(m: Model)
    requires RevisionsValid(m.rows)
    ensures ShortDependencies(m)
  {
    forall k | 0 <= k < |m.rows| ensures |m.rows[k].dependencies| <= MAX_LIST { assert RevisionValid(m.rows, k); }
  }

  /**
    For every ledger value: it passes `validate` exactly when its history, order and requests are
    well formed, its order is valid, and its lists are within the bound.
   */
  lemma ValidateAcceptsExactly(m: Model)
    ensures ValidateError(m).None? <==> Inv(m) && Sized(m)
  {
    if ValidateError(m).None? {
      hide RevisionValid, OrderAccepted, BindingsError, RowsOk, OrderOk, RequestsOk, OrderValid, IncorporatedRows, Flat;
      assert RevisionsValid(m.rows);
      AcceptedRows(m.rows);
      AcceptedOrder(m);
      AcceptedRequests(m);
      AcceptedShortDependencies(m);
    }
    if Inv(m) && Sized(m) {
      ValidateIsClosingCheck(m);
    }
  }

  // ----- how the others are refused -----

  /** Item t of request k is the first thing wrong with the requests, and no row carries its selection. */
  ghost predicate UnknownAt(rows: seq<Row>, requests: seq<Request>, k: nat, t: nat) {
    && k < |requests| && t < |requests[k].items|
    && |requests[k].items| <= 65535
    && (forall i :: 0 <= i < k ==> requests[i].invocation != requests[k].invocation)
    && (forall u | 0 <= u < t ::
          ItemPasses(rows, requests[k].invocation, requests[k].items, Ids(Flat(requests[..k])), u))
    && (forall i :: 0 <= i < |rows| ==> rows[i].selected != requests[k].items[t])
  }

  ghost predicate AllBound(rows: seq<Row>, requests: seq<Request>, k: nat)
    requires k <= |requests|
  {
    forall j :: 0 <= j < k ==> RequestBound(rows, requests, j)
  }

  ghost predicate UnknownFirst(rows: seq<Row>, requests: seq<Request>) {
    exists k: nat, t: nat :: UnknownAt(rows, requests, k, t) && AllBound(rows, requests, k)
  }

  lemma {:induction false} BindingsErrorExact(rows: seq<Row>, requests: seq<Request>)
    ensures BindingsError(rows, requests) in {None, Some(InvalidInput), Some(StaleRevision)}
    ensures BindingsError(rows, requests).None? <==> AllBound(rows, requests, |requests|)
    ensures BindingsError(rows, requests) == Some(StaleRevision) <==> UnknownFirst(rows, requests)
  {
    if requests != [] {
      var front, last := Init(requests), |requests| - 1;
      BindingsErrorExact(rows, front);
      FrontBound(rows, requests);
      LastBinding(rows, requests);
      hide ItemPasses, RequestBound, UnknownAt, ItemsError, Flat;
      if BindingsError(rows, front).Some? {
        assert !AllBound(rows, requests, last);
        if UnknownFirst(rows, requests) {
          var k: nat, t: nat :| UnknownAt(rows, requests, k, t) && AllBound(rows, requests, k);
          assert k < last by { UnknownIsIndex(rows, requests, k, t); }
          assert UnknownAt(rows, front, k, t) && AllBound(rows, front, k);
        }
        if UnknownFirst(rows, front) {
          var k: nat, t: nat :| UnknownAt(rows, front, k, t) && AllBound(rows, front, k);
          UnknownIsIndex(rows, front, k, t);
          assert UnknownAt(rows, requests, k, t) && AllBound(rows, requests, k);
        }
      } else {
        assert AllBound(rows, requests, last);
        if UnknownFirst(rows, requests) {
          var k: nat, t: nat :| UnknownAt(rows, requests, k, t) && AllBound(rows, requests, k);
          UnknownIsIndex(rows, requests, k, t);
          if k < last {
            assert RequestBound(rows, requests, k);
            UnknownIsNotBound(rows, requests, k, t);
          }
        }
      }
    }
  }

  lemma UnknownIsIndex(rows: seq<Row>, requests: seq<Request>, k: nat, t: nat)
    requires UnknownAt(rows, requests, k, t)
    ensures k < |requests|
  {
  }

  lemma UnknownIsNotBound(rows: seq<Row>, requests: seq<Request>, k: nat, t: nat)
    requires UnknownAt(rows, requests, k, t)
    ensures !RequestBound(rows, requests, k)
  {
    assert !ItemPasses(rows, requests[k].invocation, requests[k].items, Ids(Flat(requests[..k])), t);
  }

  /** Requests before the last one are judged the same without it. */
  lemma FrontBound(rows: seq<Row>, requests: seq<Request>)
    requires requests != []
    ensures forall k: nat | k < |requests| - 1 :: RequestBound(rows, Init(requests), k) <==> RequestBound(rows, requests, k)
    ensures forall k: nat, t: nat | k < |requests| - 1 :: UnknownAt(rows, Init(requests), k, t) <==> UnknownAt(rows, requests, k, t)
  {
    hide ItemPasses, Flat;
    assert forall k: nat | k < |requests| - 1 :: Init(requests)[..k] == requests[..k];
  }

  /** The verdict on the last request. */
  lemma LastBinding(rows: seq<Row>, requests: seq<Request>)
    requires requests != []
    ensures var before, last := BindingsError(rows, Init(requests)), |requests| - 1;
            var error := BindingsError(rows, requests);
            if before.Some? then error == before
            else
              && (error.None? <==> RequestBound(rows, requests, last))
              && error in {None, Some(InvalidInput), Some(StaleRevision)}
              && (error == Some(StaleRevision) <==> exists t: nat :: UnknownAt(rows, requests, last, t))
  {
    hide ItemPasses, ItemsError, Exact, Flat, RequestBound, UnknownAt;
    if BindingsError(rows, Init(requests)).None? {
      LastItems(rows, requests);
    }
  }

  lemma LastItems(rows: seq<Row>, requests: seq<Request>)
    requires requests != []
    ensures var last := |requests| - 1;
            var request := requests[last];
            var error := ItemsError(rows, request.invocation, request.items, Ids(Flat(Init(requests))));
            var fits := |request.items| <= MAX_LIST && forall i :: 0 <= i < last ==> requests[i].invocation != request.invocation;
            && (RequestBound(rows, requests, last) <==> fits && error.None?)
            && error in {None, Some(InvalidInput), Some(StaleRevision)}
            && ((exists t: nat :: UnknownAt(rows, requests, last, t)) <==> fits && error == Some(StaleRevision))
  {
    hide ItemPasses, ItemsError, Flat;
    var front, last := Init(requests), |requests| - 1;
    var request := requests[last];
    assert requests[..last] == front;
    ItemsErrorExact(rows, request.invocation, request.items, Ids(Flat(front)));
    var error := ItemsError(rows, request.invocation, request.items, Ids(Flat(front)));
    if error == Some(StaleRevision) && |request.items| <= MAX_LIST
       && forall i :: 0 <= i < last ==> requests[i].invocation != request.invocation
    {
      var t :| 0 <= t < |request.items| && !ItemPasses(rows, request.invocation, request.items, Ids(Flat(front)), t)
               && (forall u | 0 <= u < t :: ItemPasses(rows, request.invocation, request.items, Ids(Flat(front)), u))
               && Exact(rows, request.items[t]).Err?;
      assert UnknownAt(rows, requests, last, t);
    }
    if exists t: nat :: UnknownAt(rows, requests, last, t) {
      var t: nat :| UnknownAt(rows, requests, last, t);
      UnknownDecides(rows, requests, t);
    }
  }

  lemma UnknownDecides(rows: seq<Row>, requests: seq<Request>, t: nat)
    requires requests != [] && UnknownAt(rows, requests, |requests| - 1, t)
    ensures var request := Last(requests);
            ItemsError(rows, request.invocation, request.items, Ids(Flat(Init(requests)))) == Some(StaleRevision)
  {
    hide ItemsError, Flat;
    var request, front := Last(requests), Init(requests);
    assert requests[..|requests| - 1] == front;
    ItemsErrorExact(rows, request.invocation, request.items, Ids(Flat(front)));
    assert !ItemPasses(rows, request.invocation, request.items, Ids(Flat(front)), t);
  }

  /** The error of a refused ledger: stale when an unknown selection is the first thing wrong, invalid otherwise. */
  lemma ValidateErrorExact(m: Model)
    ensures ValidateError(m) in {None, Some(InvalidInput), Some(StaleRevision)}
    ensures ValidateError(m) == Some(StaleRevision) <==>
            && (m.generation == 0 ==> m == EMPTY)
            && RowsOk(m.rows) && ShortDependencies(m) && OrderOk(m.rows, m.order) && OrderValid(m)
            && UnknownFirst(m.rows, m.requests)
  {
    hide RevisionValid, OrderAccepted, BindingsError, RowsOk, OrderOk, OrderValid, IncorporatedRows, Flat, UnknownFirst;
    BindingsErrorExact(m.rows, m.requests);
    RevisionsExact(m);
    if RowsOk(m.rows) {
      if OrderAccepted(m) {
        AcceptedOrder(m);
      }
      if OrderOk(m.rows, m.order) {
        OrderCheckAgrees(m);
      }
    }
  }

  lemma RevisionsExact(m: Model)
    ensures RevisionsValid(m.rows) <==> RowsOk(m.rows) && ShortDependencies(m)
  {
    hide RevisionValid, RowsOk;
    if RevisionsValid(m.rows) {
      AcceptedRows(m.rows);
      AcceptedShortDependencies(m);
    }
    if RowsOk(m.rows) && ShortDependencies(m) {
      forall k | 0 <= k < |m.rows| ensures RevisionValid(m.rows, k) { RowValid(m.rows, k); }
    }
  }

  // ----- the production transition on every ledger value -----

  /**
    Production answers every command on every ledger as the model does, except that it first refuses
    a ledger it would not accept, and refuses lists over the bound.
   */
  lemma ProductionAnswers(m: Model, command: Command, author: nat)
    ensures var model := Apply(m, command, author);
            ProdApply(m, command, author) ==
            if !ConstructorValid(command) then Err(InvalidInput)
            else if ValidateError(m).Some? then Err(ValidateError(m).value)
            else if model.Ok? && Oversized(command) then Err(InvalidInput)
            else model
    ensures ProdApply(m, command, author).Ok? ==> ValidateError(ProdApply(m, command, author).value).None?
  {
    hide Inv, Sized, Apply, Oversized, ConstructorValid, ValidateError, ProdMutate;
    ValidateAcceptsExactly(m);
    if ConstructorValid(command) && ValidateError(m).None? {
      ProductionAgrees(m, command, author);
    }
  }

  function ProdNext(m: Model, step: Step): Model {
    match ProdApply(m, step.command, step.author)
    case Ok(n) => n
    case Err(_) => m
  }

  function ProdRunFrom(start: Model, steps: seq<Step>): Model {
    if steps == [] then start else ProdNext(ProdRunFrom(start, Init(steps)), Last(steps))
  }

  lemma ProdNextIsAccepted(m: Model, step: Step)
    requires ValidateError(m).None?
    ensures ValidateError(ProdNext(m, step)).None?
    ensures !Oversized(step.command) ==> ProdNext(m, step) == Next(m, step)
  {
    hide ValidateError, ProdApply, Apply, Oversized;
    ProductionAnswers(m, step.command, step.author);
    NotConstructed(m, step.command, step.author);
  }

  lemma NotConstructed(m: Model, command: Command, author: nat)
    ensures !ConstructorValid(command) ==> Apply(m, command, author) == Err(InvalidInput)
  {
  }

  /** From any accepted ledger every production run stays within what is accepted, the invariant included. */
  lemma {:induction false} ProdRunKeepsInvariant(start: Model, steps: seq<Step>)
    requires ValidateError(start).None?
    ensures var m := ProdRunFrom(start, steps); ValidateError(m).None? && Inv(m) && Sized(m)
  {
    hide ValidateError, ProdNext, Inv, Sized;
    if steps != [] {
      ProdRunKeepsInvariant(start, Init(steps));
      ProdNextIsAccepted(ProdRunFrom(start, Init(steps)), Last(steps));
    }
    ValidateAcceptsExactly(ProdRunFrom(start, steps));
  }

  /**
    The differential property over whole histories: from any accepted ledger, with lists within the
    bound, production and model go through the same states, and answer the next command alike.
   */
  lemma {:induction false} ProductionRunsAgree(start: Model, steps: seq<Step>, next: Step)
    requires ValidateError(start).None? && forall i | 0 <= i < |steps| :: !Oversized(steps[i].command)
    ensures ProdRunFrom(start, steps) == RunFrom(start, steps)
    ensures !Oversized(next.command) ==>
              ProdApply(ProdRunFrom(start, steps), next.command, next.author) ==
              Apply(RunFrom(start, steps), next.command, next.author)
  {
    hide ValidateError, ProdApply, Apply, Oversized, ProdNext, Next, Inv, Sized, ConstructorValid;
    ProdRunKeepsInvariant(start, steps);
    if steps != [] {
      ProductionRunsAgree(start, Init(steps), Last(steps));
      ProdRunKeepsInvariant(start, Init(steps));
      ProdNextIsAccepted(ProdRunFrom(start, Init(steps)), Last(steps));
    }
    ProductionAnswers(ProdRunFrom(start, steps), next.command, next.author);
    NotConstructed(RunFrom(start, steps), next.command, next.author);
  }

  /** The empty ledger is accepted, so the above covers every history from its beginning. */
  lemma EmptyIsAccepted()
    ensures ValidateError(EMPTY).None?
  {
    EmptyKeepsInvariant();
    ValidateAcceptsExactly(EMPTY);
  }
}
