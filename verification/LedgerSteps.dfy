/**
  Every command keeps the ledger's shape, and the closing order check is
  pinned down exactly: it cannot reject an edit, hold, withdrawal, correction
  or incorporation, and rejects an enqueue exactly when a dependency was withdrawn.
 */
module LedgerSteps {
  import opened Common
  import opened LedgerModel
  import opened LedgerInvariant

  /** Position i of a filtered list came from a position of the original with the same kept prefix. */
  lemma {:induction false} DropOrigin(s: seq<nat>, xs: seq<nat>, i: nat) returns (j: nat)
    requires i < |Drop(s, xs)|
    ensures j < |s| && s[j] == Drop(s, xs)[i]
    ensures forall y | y in s[..j] && y !in xs :: y in Drop(s, xs)[..i]
  {
    var front := Drop(Init(s), xs);
    if i < |front| {
      j := DropOrigin(Init(s), xs, i);
      assert s[..j] == Init(s)[..j];
      assert Drop(s, xs)[..i] == front[..i];
    } else {
      j := |s| - 1;
      assert s[..j] == Init(s);
      assert Drop(s, xs)[..i] == front;
    }
  }

  /** A kept position stays valid when dropped dependencies become incorporated. */
  lemma PositionFilter(m: Model, n: Model, xs: seq<nat>, i: nat)
    requires OrderValid(m) && n.order == Drop(m.order, xs) && i < |n.order|
    requires Latest(n.rows, n.order[i]).Some? && DepsOf(n.rows, n.order[i]) == DepsOf(m.rows, n.order[i])
    requires forall d | d in DepsOf(n.rows, n.order[i]) ::
               Latest(n.rows, d).Some? && (IsIn(m.rows, d, Incorporated) || d in xs ==> IsIn(n.rows, d, Incorporated))
    ensures PositionValid(n, i)
  {
    var j := DropOrigin(m.order, xs, i);
    assert PositionValid(m, j);
    forall d | d in DepsOf(n.rows, n.order[i])
      ensures DepMet(n, i, d)
    {
      assert DepMet(m, j, d);
    }
  }

  /** A position stays valid when lookups only gain rows and incorporated rows stay so. */
  lemma PositionsKept(m: Model, n: Model)
    requires OrderValid(m) && m.order <= n.order
    requires forall id | id in m.order :: DepsOf(n.rows, id) == DepsOf(m.rows, id)
    requires forall id :: Latest(m.rows, id).Some? ==> Latest(n.rows, id).Some?
    requires forall id :: IsIn(m.rows, id, Incorporated) ==> IsIn(n.rows, id, Incorporated)
    ensures forall i | 0 <= i < |m.order| :: PositionValid(n, i)
  {
    forall i | 0 <= i < |m.order| ensures PositionValid(n, i) {
      assert PositionValid(m, i) && m.order[i] in m.order;
      assert n.order[..i] == m.order[..i];
      forall d | d in DepsOf(m.rows, n.order[i])
        ensures DepMet(n, i, d)
      {
        assert DepMet(m, i, d);
        assert IsIn(m.rows, d, Incorporated) ==> IsIn(n.rows, d, Incorporated);
      }
    }
  }

  lemma HeldOrder(m: Model, k: nat, state: State, n: Model)
    requires OrderOk(m.rows, m.order) && k < |m.rows| && m.rows[k].state.Pending() && state.Pending()
    requires n == m.(rows := SetState(m.rows, k, state))
    requires forall id :: LatestIndex(n.rows, id) == LatestIndex(m.rows, id)
    ensures OrderOk(n.rows, n.order)
  {
  }

  lemma HoldStep(m: Model, k: nat, state: State, n: Model)
    requires Inv(m) && k < |m.rows| && m.rows[k].state.Pending() && state.Pending()
    requires n == m.(rows := SetState(m.rows, k, state))
    ensures Shape(n) && OrderValid(n)
  {
    assert RowOk(m.rows, k);
    hide RequestsOk, RowOk, OrderOk, PositionValid;
    RestatedRows(m.rows, n.rows);
    hide RowsOk;
    forall id ensures LatestIndex(n.rows, id) == LatestIndex(m.rows, id) { LookupSame(m.rows, n.rows, id); }
    HeldOrder(m, k, state, n);
    RequestsCarry(m.rows, n.rows, m.requests);
    PositionsKept(m, n);
  }

  ghost predicate Pushed(rows: seq<Row>, rows': seq<Row>, row: Row) {
    && |rows'| == |rows| + 1 && Last(rows') == row
    && forall id :: LatestIndex(rows', id) == if row.selected.id == id then Some(|rows|) else LatestIndex(rows, id)
  }

  lemma PushedLookups(rows: seq<Row>, rows': seq<Row>, row: Row)
    requires |rows'| == |rows| + 1 && Last(rows') == row
    requires forall i :: 0 <= i < |rows| ==> rows'[i].selected == rows[i].selected
    ensures Pushed(rows, rows', row)
  {
  }

  lemma EditedOrder(m: Model, k: nat, row: Row, n: Model)
    requires OrderOk(m.rows, m.order) && k < |m.rows| && m.rows[k].state.Pending()
    requires row.selected.id == m.rows[k].selected.id && row.state.Pending()
    requires n == m.(rows := SetState(m.rows, k, Superseded) + [row])
    requires Pushed(m.rows, n.rows, row)
    ensures OrderOk(n.rows, n.order)
  {
  }

  lemma EditStep(m: Model, k: nat, row: Row, n: Model)
    requires Inv(m) && k < |m.rows| && LatestIndex(m.rows, m.rows[k].selected.id) == Some(k)
    requires m.rows[k].state.Pending()
    requires row == m.rows[k].(selected := Selection(m.rows[k].selected.id, m.rows[k].selected.revision + 1),
                               author := row.author, text := row.text)
    requires n == m.(rows := SetState(m.rows, k, Superseded) + [row])
    ensures Shape(n) && OrderValid(n)
  {
    hide RequestsOk, RowOk, OrderOk, PositionValid;
    PushRevision(m.rows, k, row);
    hide RowsOk;
    PushedLookups(m.rows, n.rows, row);
    EditedOrder(m, k, row, n);
    RequestsCarry(m.rows, n.rows, m.requests);
    PositionsKept(m, n);
  }

  lemma WithdrawnOrder(m: Model, k: nat, n: Model)
    requires Shape(m) && k < |m.rows| && m.rows[k].state.Pending()
    requires n == m.(rows := SetState(m.rows, k, Withdrawn), order := Drop(m.order, [m.rows[k].selected.id]))
    requires forall id :: LatestIndex(n.rows, id) == LatestIndex(m.rows, id)
    ensures OrderOk(n.rows, n.order)
  {
    var id0 := m.rows[k].selected.id;
    DropNoDup(m.order, [id0]);
    LatestIsCurrent(m.rows, k);
    forall j | 0 <= j < |n.rows| && n.rows[j].state.Pending() ensures n.rows[j].selected.id in n.order {
      LatestIsCurrent(m.rows, j);
      assert m.rows[j] == n.rows[j];
    }
    hide RowsOk, RequestsOk;
    assert forall id | id in n.order :: Latest(n.rows, id) == Latest(m.rows, id);
  }

  lemma WithdrawnPositions(m: Model, k: nat, n: Model)
    requires Inv(m) && k < |m.rows| && m.rows[k].state.Pending()
    requires !HasPendingDependent(m, m.rows[k].selected.id)
    requires n == m.(rows := SetState(m.rows, k, Withdrawn), order := Drop(m.order, [m.rows[k].selected.id]))
    requires forall id :: LatestIndex(n.rows, id) == LatestIndex(m.rows, id)
    ensures OrderValid(n)
  {
    var id0 := m.rows[k].selected.id;
    LatestIsCurrent(m.rows, k);
    DropNoDup(m.order, [id0]);
    hide RowsOk, OrderOk, RequestsOk;
    forall i | 0 <= i < |n.order| ensures PositionValid(n, i) {
      assert n.order[i] in m.order;
      var j :| 0 <= j < |m.order| && m.order[j] == n.order[i];
      assert PositionValid(m, j);
      forall d | d in DepsOf(n.rows, n.order[i])
        ensures Latest(n.rows, d).Some? && d != id0
      {
        assert DepMet(m, j, d);
      }
      PositionFilter(m, n, [id0], i);
    }
  }

  lemma WithdrawStep(m: Model, k: nat, n: Model)
    requires Inv(m) && k < |m.rows| && m.rows[k].state.Pending()
    requires !HasPendingDependent(m, m.rows[k].selected.id)
    requires n == m.(rows := SetState(m.rows, k, Withdrawn), order := Drop(m.order, [m.rows[k].selected.id]))
    ensures Shape(n) && OrderValid(n)
  {
    assert RowOk(m.rows, k);
    LatestIsCurrent(m.rows, k);
    hide RequestsOk, RowOk, OrderOk, OrderValid;
    RestatedRows(m.rows, n.rows);
    forall id ensures LatestIndex(n.rows, id) == LatestIndex(m.rows, id) { LookupSame(m.rows, n.rows, id); }
    hide RowsOk;
    RequestsCarry(m.rows, n.rows, m.requests);
    WithdrawnOrder(m, k, n);
    WithdrawnPositions(m, k, n);
  }

  /** An input appended to the order is admissible exactly when none of its dependencies was withdrawn. */
  lemma EnqueueStep(m: Model, row: Row, n: Model)
    requires Inv(m) && LatestIndex(m.rows, row.selected.id).None?
    requires row.selected.revision == 1 && row.state == Queued && row.invocation.None?
    requires NoDup(row.dependencies) && row.selected.id !in row.dependencies
    requires forall d | d in row.dependencies :: LatestIndex(m.rows, d).Some?
    requires row.correction.Some? ==> ExactBefore(m.rows, |m.rows|, row.correction.value, true)
    requires n == m.(rows := m.rows + [row], order := m.order + [row.selected.id])
    ensures Shape(n)
    ensures OrderValid(n) <==> forall d | d in row.dependencies :: !IsIn(m.rows, d, Withdrawn)
  {
    EnqueuedOrder(m, row, n);
    hide RequestsOk, RowOk, OrderOk, PositionValid;
    PushFresh(m.rows, row);
    hide RowsOk, ExactBefore;
    PushedLookups(m.rows, n.rows, row);
    RequestsCarry(m.rows, n.rows, m.requests);
    PositionsKept(m, n);
    AppendedPosition(m, row, n);
  }

  lemma EnqueuedOrder(m: Model, row: Row, n: Model)
    requires OrderOk(m.rows, m.order) && LatestIndex(m.rows, row.selected.id).None? && row.state.Pending()
    requires n == m.(rows := m.rows + [row], order := m.order + [row.selected.id])
    ensures OrderOk(n.rows, n.order) && row.selected.id !in m.order
  {
    PushedLookups(m.rows, n.rows, row);
    assert forall id | id in m.order :: Latest(m.rows, id).Some?;
    forall i | 0 <= i < |n.rows| && n.rows[i].state.Pending() ensures n.rows[i].selected.id in n.order {
      assert i < |m.rows| ==> n.rows[i] == m.rows[i];
      assert n.order[|m.order|] == row.selected.id;
    }
    assert row.selected.id !in m.order;
    assert forall i | 0 <= i < |m.order| :: n.order[i] == m.order[i] && m.order[i] in m.order;
  }

  lemma AppendedPosition(m: Model, row: Row, n: Model)
    requires Shape(m) && row.selected.id !in row.dependencies
    requires forall d | d in row.dependencies :: LatestIndex(m.rows, d).Some?
    requires n == m.(rows := m.rows + [row], order := m.order + [row.selected.id])
    requires forall i | 0 <= i < |m.order| :: PositionValid(n, i)
    ensures OrderValid(n) <==> forall d | d in row.dependencies :: !IsIn(m.rows, d, Withdrawn)
  {
    var last := |m.order|;
    assert n.order[..last] == m.order;
    PushLookup(m.rows, n.rows, row.selected.id);
    forall d | d in row.dependencies
      ensures DepMet(n, last, d) <==> !IsIn(m.rows, d, Withdrawn)
    {
      var k := LatestIndex(m.rows, d).value;
      PushLookup(m.rows, n.rows, d);
      LatestIsCurrent(m.rows, k);
      assert m.rows[k].state.Pending() ==> d in m.order;
    }
    assert OrderValid(n) <==> PositionValid(n, last);
  }

  // ----- reordering -----

  lemma {:induction false} NoDupCounts(s: seq<nat>)
    ensures NoDup(s) <==> forall x :: multiset(s)[x] <= 1
  {
    if s != [] {
      var t := Init(s);
      NoDupCounts(t);
      assert s == t + [Last(s)];
      assert forall x :: multiset(s)[x] == multiset(t)[x] + (if x == Last(s) then 1 else 0);
      if NoDup(s) {
        assert Last(s) !in t;
        assert NoDup(t);
      } else {
        var i, j :| 0 <= i < j < |s| && s[i] == s[j];
        if j == |s| - 1 {
          assert t[i] == Last(s);
          assert Last(s) in multiset(t);
          assert multiset(s)[Last(s)] >= 2;
        } else {
          assert t[i] == t[j];
        }
      }
    }
  }

  /** Equal length and one-way membership already make the proposal a permutation. */
  lemma ReorderIsPermutation(order: seq<nat>, proposal: seq<nat>)
    requires NoDup(order) && |proposal| == |order| && forall id | id in order :: id in proposal
    ensures multiset(proposal) == multiset(order)
  {
    NoDupCounts(order);
    var a, b := multiset(order), multiset(proposal);
    forall x ensures a[x] <= b[x] {
      assert a[x] >= 1 ==> x in order && x in b;
    }
    assert b == a + (b - a);
    assert |b - a| == 0;
  }

  lemma {:induction false} DropAbsent(s: seq<nat>, id: nat)
    requires id !in s
    ensures Drop(s, [id]) == s
  {
    if s != [] {
      DropAbsent(Init(s), id);
    }
  }

  lemma {:induction false} DropOne(s: seq<nat>, id: nat)
    requires NoDup(s) && id in s
    ensures multiset(Drop(s, [id])) + multiset{id} == multiset(s)
  {
    assert s == Init(s) + [Last(s)];
    if Last(s) == id {
      assert id !in Init(s);
      DropAbsent(Init(s), id);
    } else {
      DropOne(Init(s), id);
    }
  }

  lemma MoveIsPermutation(order: seq<nat>, id: nat, before: Option<nat>)
    requires NoDup(order) && id in order && MoveOrder(order, id, before).Ok?
    ensures multiset(MoveOrder(order, id, before).value) == multiset(order)
  {
    hide Drop, NoDup, Position;
    DropOne(order, id);
    var rest := Drop(order, [id]);
    if before.Some? {
      var p := Position(rest, before.value).value;
      assert rest == rest[..p] + rest[p..];
    }
  }

  lemma PermutedStep(m: Model, n: Model)
    requires Shape(m) && n == m.(order := n.order) && multiset(n.order) == multiset(m.order)
    ensures Shape(n)
  {
    NoDupCounts(m.order);
    NoDupCounts(n.order);
    assert forall id :: id in n.order <==> id in multiset(n.order);
    assert forall id :: id in m.order <==> id in multiset(m.order);
  }

  // ----- incorporation -----

  lemma {:induction false} ItemsQueued(rows: seq<Row>, items: seq<Selection>)
    ensures FirstItemError(rows, items).None? <==>
            forall s | s in items :: PendingIndex(rows, s).Ok? && rows[PendingIndex(rows, s).value].state == Queued
  {
    if items != [] {
      ItemsQueued(rows, Init(items));
      assert items == Init(items) + [Last(items)];
    }
  }

  /** What an accepted request changes, and the guards it passed. */
  lemma RequestTaken(m: Model, request: Request, n: Model)
    requires IncorporateRequest(m, request) == Ok(n)
    ensures n.rows == MarkTaken(m.rows, request.items, request.invocation) && n.order == Drop(m.order, Ids(request.items))
    ensures n.requests == m.requests + [request] && n.generation == m.generation
    ensures forall i | 0 <= i < |m.requests| :: m.requests[i].invocation != request.invocation
    ensures Keep(m.order, Ids(request.items)) == Ids(request.items)
    ensures FirstItemError(m.rows, request.items).None?
    ensures forall t | 0 <= t < |request.items| :: ItemDepsIncluded(m, request.items, t)
  {
    hide MarkTaken, Drop, Keep, Ids, FirstItemError, ItemDepsIncluded;
  }

  lemma MarkedStates(rows: seq<Row>, items: seq<Selection>, v: nat)
    requires FirstItemError(rows, items).None?
    ensures Restated(rows, MarkTaken(rows, items, v))
  {
    ItemsQueued(rows, items);
    hide FirstItemError, LatestBefore;
    forall k | 0 <= k < |rows| && Taken(rows, items, k)
      ensures rows[k].state == Queued
    {
      assert PendingIndex(rows, rows[k].selected) == Ok(k);
    }
  }

  lemma MarkedIncorporated(rows: seq<Row>, items: seq<Selection>, v: nat, id: nat)
    requires FirstItemError(rows, items).None?
    ensures LatestIndex(MarkTaken(rows, items, v), id) == LatestIndex(rows, id)
    ensures IsIn(MarkTaken(rows, items, v), id, Incorporated) <==> IsIn(rows, id, Incorporated) || id in Ids(items)
  {
    LookupSame(rows, MarkTaken(rows, items, v), id);
    ItemsQueued(rows, items);
    hide FirstItemError, LatestBefore;
    if id in Ids(items) {
      var t :| 0 <= t < |items| && Ids(items)[t] == id;
      var k := PendingIndex(rows, items[t]).value;
      assert items[t] in items && Taken(rows, items, k);
    } else {
      forall s | s in items ensures s.id != id {
        var t :| 0 <= t < |items| && items[t] == s;
        assert Ids(items)[t] == s.id;
      }
    }
  }

  lemma MarkedRows(m: Model, request: Request, n: Model)
    requires IncorporateRequest(m, request) == Ok(n)
    ensures Restated(m.rows, n.rows)
    ensures forall id :: LatestIndex(n.rows, id) == LatestIndex(m.rows, id)
    ensures forall id :: IsIn(n.rows, id, Incorporated) <==>
              IsIn(m.rows, id, Incorporated) || id in Ids(request.items)
  {
    hide IncorporateRequest, Restated, MarkTaken, Drop, Keep, Ids, FirstItemError, ItemDepsIncluded, LatestIndex, IsIn;
    RequestTaken(m, request, n);
    MarkedStates(m.rows, request.items, request.invocation);
    forall id
      ensures LatestIndex(n.rows, id) == LatestIndex(m.rows, id)
      ensures IsIn(n.rows, id, Incorporated) <==> IsIn(m.rows, id, Incorporated) || id in Ids(request.items)
    {
      MarkedIncorporated(m.rows, request.items, request.invocation, id);
    }
  }

  lemma IncorporatePositions(m: Model, request: Request, n: Model)
    requires Inv(m) && IncorporateRequest(m, request) == Ok(n)
    ensures OrderValid(n)
  {
    RequestTaken(m, request, n);
    MarkedRows(m, request, n);
    hide Shape, IncorporateRequest, MarkTaken, Drop, Keep, Ids, FirstItemError, ItemDepsIncluded;
    forall i | 0 <= i < |n.order| ensures PositionValid(n, i) {
      assert n.order[i] in m.order;
      var j :| 0 <= j < |m.order| && m.order[j] == n.order[i];
      assert PositionValid(m, j);
      forall d | d in DepsOf(n.rows, n.order[i])
        ensures Latest(n.rows, d).Some?
      {
        assert DepMet(m, j, d);
      }
      PositionFilter(m, n, Ids(request.items), i);
    }
  }

  lemma IncorporateOrder(m: Model, request: Request, n: Model)
    requires Inv(m) && IncorporateRequest(m, request) == Ok(n)
    ensures OrderOk(n.rows, n.order)
  {
    RequestTaken(m, request, n);
    MarkedRows(m, request, n);
    DropNoDup(m.order, Ids(request.items));
    hide RequestsOk, Admissible, IncorporateRequest, MarkTaken, Keep, Ids, FirstItemError, ItemDepsIncluded;
    forall k | 0 <= k < |n.rows| && n.rows[k].state.Pending()
      ensures n.rows[k].selected.id in n.order
    {
      assert n.rows[k] == m.rows[k];
      LatestIsCurrent(m.rows, k);
      assert !IsIn(n.rows, m.rows[k].selected.id, Incorporated);
      assert IsIn(m.rows, m.rows[k].selected.id, m.rows[k].state);
    }
    forall id | id in n.order
      ensures Latest(n.rows, id).Some? && Latest(n.rows, id).value.state.Pending()
    {
      assert !IsIn(n.rows, id, Incorporated);
    }
  }

  lemma FlatGrows(requests: seq<Request>, request: Request)
    ensures Flat(requests + [request]) == Flat(requests) + request.items
    ensures Ids(Flat(requests + [request])) == Ids(Flat(requests)) + Ids(request.items)
  {
  }

  lemma ListedGrows(requests: seq<Request>, request: Request, v: nat, s: Selection)
    ensures Listed(requests + [request], v, s) <==>
            Listed(requests, v, s) || (v == request.invocation && s in request.items)
  {
    var all := requests + [request];
    if Listed(requests, v, s) {
      var i :| 0 <= i < |requests| && requests[i].invocation == v && s in requests[i].items;
      assert all[i] == requests[i];
    }
    if v == request.invocation && s in request.items {
      assert all[|requests|] == request;
    }
  }

  lemma IncorporateBindings(m: Model, request: Request, n: Model)
    requires Inv(m) && IncorporateRequest(m, request) == Ok(n)
    ensures forall v, s :: Listed(n.requests, v, s) ==> Bound(n.rows, v, s)
    ensures forall k :: 0 <= k < |n.rows| && n.rows[k].state == Incorporated ==>
              n.rows[k].invocation.Some? && Listed(n.requests, n.rows[k].invocation.value, n.rows[k].selected)
  {
    MarkedRows(m, request, n);
    ItemsQueued(m.rows, request.items);
    forall v, s | Listed(n.requests, v, s)
      ensures Bound(n.rows, v, s)
    {
      ListedGrows(m.requests, request, v, s);
      if Listed(m.requests, v, s) {
        assert Bound(m.rows, v, s);
      } else {
        var k := PendingIndex(m.rows, s).value;
        assert Taken(m.rows, request.items, k);
      }
    }
    forall k | 0 <= k < |n.rows| && n.rows[k].state == Incorporated
      ensures n.rows[k].invocation.Some? && Listed(n.requests, n.rows[k].invocation.value, n.rows[k].selected)
    {
      if !Taken(m.rows, request.items, k) {
        assert n.rows[k] == m.rows[k];
        assert RowOk(m.rows, k);
      }
      ListedGrows(m.requests, request, n.rows[k].invocation.value, n.rows[k].selected);
    }
  }

  lemma DependenciesRestated(rows: seq<Row>, rows': seq<Row>, id: nat)
    requires Restated(rows, rows') && LatestIndex(rows', id) == LatestIndex(rows, id)
    ensures Latest(rows', id).Some? <==> Latest(rows, id).Some?
    ensures Latest(rows', id).Some? ==> Latest(rows', id).value.dependencies == Latest(rows, id).value.dependencies
  {
  }

  /** An earlier entry keeps what precedes it. */
  lemma PriorStays(rows: seq<Row>, rows': seq<Row>, prior: seq<Selection>, items: seq<Selection>, t: nat)
    requires Restated(rows, rows') && t < |prior| && LatestIndex(rows', prior[t].id) == LatestIndex(rows, prior[t].id)
    requires DepsBefore(rows, prior, t)
    ensures DepsBefore(rows', prior + items, t)
  {
    DependenciesRestated(rows, rows', prior[t].id);
    hide Restated, Latest;
    assert (prior + items)[t] == prior[t];
    assert Ids(prior + items)[..t] == Ids(prior)[..t];
  }

  /** A new entry rests on what was included before it. */
  lemma TakenPlaced(m: Model, rows': seq<Row>, items: seq<Selection>, u: nat)
    requires Restated(m.rows, rows') && u < |items| && LatestIndex(rows', items[u].id) == LatestIndex(m.rows, items[u].id)
    requires ItemDepsIncluded(m, items, u)
    ensures DepsBefore(rows', Flat(m.requests) + items, |Flat(m.requests)| + u)
  {
    DependenciesRestated(m.rows, rows', items[u].id);
    hide Restated, Latest, Flat;
    var prior := Flat(m.requests);
    var t := |prior| + u;
    assert (prior + items)[t] == items[u];
    assert Ids(prior + items)[..t] == Ids(prior) + Ids(items)[..u];
  }

  lemma IncorporateTopological(m: Model, request: Request, n: Model, t: nat)
    requires Inv(m) && IncorporateRequest(m, request) == Ok(n) && t < |Flat(n.requests)|
    ensures DepsBefore(n.rows, Flat(n.requests), t)
  {
    hide RowsOk, OrderOk, Admissible, IncorporateRequest, Flat, Restated, MarkTaken, ItemDepsIncluded, FirstItemError, LatestIndex,
      DepsBefore;
    var prior := Flat(m.requests);
    RequestTaken(m, request, n);
    FlatGrows(m.requests, request);
    MarkedRows(m, request, n);
    if t < |prior| {
      PriorStays(m.rows, n.rows, prior, request.items, t);
    } else {
      TakenPlaced(m, n.rows, request.items, t - |prior|);
    }
  }

  lemma IncorporateOnce(m: Model, request: Request)
    requires Inv(m) && Keep(m.order, Ids(request.items)) == Ids(request.items)
    ensures NoDup(Ids(Flat(m.requests + [request])))
  {
    KeepNoDup(m.order, Ids(request.items));
    forall id | id in Ids(request.items) ensures id !in Ids(Flat(m.requests)) {
      assert id in m.order;
      IncorporatedInFlat(m.rows, m.requests, id);
    }
    hide Inv, Flat, Keep;
    FlatGrows(m.requests, request);
    NoDupConcat(Ids(Flat(m.requests)), Ids(request.items));
  }

  lemma IncorporateStep(m: Model, request: Request, n: Model)
    requires Inv(m) && IncorporateRequest(m, request) == Ok(n)
    ensures Shape(n) && OrderValid(n)
  {
    hide RowsOk, OrderOk, OrderValid, Admissible, IncorporateRequest, Flat, Restated, MarkTaken, ItemDepsIncluded, FirstItemError,
      Keep, Drop, Ids, Listed, Bound, DepsBefore;
    RequestTaken(m, request, n);
    MarkedRows(m, request, n);
    RestatedRows(m.rows, n.rows);
    IncorporateOrder(m, request, n);
    IncorporatePositions(m, request, n);
    IncorporateBindings(m, request, n);
    IncorporateOnce(m, request);
    forall t | 0 <= t < |Flat(n.requests)| ensures DepsBefore(n.rows, Flat(n.requests), t) {
      IncorporateTopological(m, request, n, t);
    }
  }

  // ----- the invariant and the exact guards -----

  ghost predicate NoneWithdrawn(m: Model, dependencies: seq<nat>) {
    forall d | d in dependencies :: !IsIn(m.rows, d, Withdrawn)
  }

  /** The state after the command's own checks, before the closing order check. */
  lemma MutateKeepsShape(m: Model, command: Command, author: nat, n: Model)
    requires Inv(m) && Mutate(m, command, author) == Ok(n)
    ensures Shape(n)
    ensures command.Edit? || command.Hold? || command.Withdraw? || command.Correct? || command.Incorporate? ==>
              OrderValid(n)
    ensures command.Enqueue? ==> (OrderValid(n) <==> NoneWithdrawn(m, command.dependencies))
  {
    hide RequestsOk, PositionValid, MarkTaken, HasPendingDependent, MoveOrder, ItemDepsIncluded, Drop, LatestBefore;
    match command
    case Enqueue(id, text, dependencies) =>
      EnqueueStep(m, Last(n.rows), n);
    case Edit(selected, text) =>
      EditStep(m, PendingIndex(m.rows, selected).value, Last(n.rows), n);
    case Hold(selected, held) =>
      HoldStep(m, PendingIndex(m.rows, selected).value, if held then Held else Queued, n);
    case Withdraw(selected) =>
      WithdrawStep(m, PendingIndex(m.rows, selected).value, n);
    case Move(selected, before) =>
      assert m.rows[PendingIndex(m.rows, selected).value].selected.id in m.order;
      MoveIsPermutation(m.order, selected.id, before);
      PermutedStep(m, n);
    case Reorder(order) =>
      ReorderIsPermutation(m.order, order);
      PermutedStep(m, n);
    case Correct(original, id, text) =>
      var k := ExactIndex(m.rows, original).value;
      LatestIsCurrent(m.rows, k);
      EnqueueStep(m, Last(n.rows), n);
    case Incorporate(request) =>
      IncorporateStep(m, request, n);
  }

  lemma ApplyKeepsInvariant(m: Model, command: Command, author: nat)
    requires Inv(m) && Apply(m, command, author).Ok?
    ensures Inv(Apply(m, command, author).value)
  {
    MutateKeepsShape(m, command, author, Mutate(m, command, author).value);
  }

  lemma NextKeepsInvariant(m: Model, step: Step)
    requires Inv(m)
    ensures Inv(Next(m, step))
  {
    hide Inv, Apply;
    if Apply(m, step.command, step.author).Ok? {
      ApplyKeepsInvariant(m, step.command, step.author);
    }
  }

  /** The empty ledger is a start for all that follows. */
  lemma EmptyKeepsInvariant()
    ensures Inv(EMPTY)
  {
  }

  lemma {:induction false} RunKeepsInvariant(start: Model, steps: seq<Step>)
    requires Inv(start)
    ensures Inv(RunFrom(start, steps))
  {
    hide Inv, Next;
    if steps != [] {
      RunKeepsInvariant(start, Init(steps));
      NextKeepsInvariant(RunFrom(start, Init(steps)), Last(steps));
    }
  }

  /** No pending input stands before one of its own pending dependencies. */
  ghost predicate RespectsDependencies(rows: seq<Row>, order: seq<nat>) {
    forall i, d :: 0 <= i < |order| && d in DepsOf(rows, order[i]) && d in order ==> d in order[..i]
  }

  lemma PermutedOrderValid(m: Model, n: Model)
    requires Inv(m) && n == m.(order := n.order) && multiset(n.order) == multiset(m.order)
    ensures OrderValid(n) <==> RespectsDependencies(m.rows, n.order)
  {
    assert forall id :: id in n.order <==> id in multiset(n.order);
    assert forall id :: id in m.order <==> id in multiset(m.order);
    forall i | 0 <= i < |n.order|
      ensures PositionValid(n, i) <==>
              forall d | d in DepsOf(m.rows, n.order[i]) && d in n.order :: d in n.order[..i]
    {
      assert n.order[i] in m.order;
      var j :| 0 <= j < |m.order| && m.order[j] == n.order[i];
      assert PositionValid(m, j);
      forall d | d in DepsOf(m.rows, n.order[i])
        ensures DepMet(n, i, d) <==> (d in n.order ==> d in n.order[..i])
      {
        assert DepMet(m, j, d);
      }
    }
  }

  lemma AdvanceKeepsOrderValid(n: Model, command: Command)
    ensures OrderValid(Advance(n, command)) <==> OrderValid(n)
  {
    var n' := Advance(n, command);
    forall i | 0 <= i < |n.order| ensures PositionValid(n', i) <==> PositionValid(n, i) {
      assert forall d :: DepMet(n', i, d) <==> DepMet(n, i, d);
    }
  }

  /**
    When a well-formed command passes its own checks, the closing check rejects it exactly in these
    cases, and always with `InvalidInput`.
   */
  lemma ClosingCheckIsExact(m: Model, command: Command, author: nat)
    requires Inv(m) && ConstructorValid(command) && Mutate(m, command, author).Ok?
    ensures Apply(m, command, author).Err? ==> Apply(m, command, author).error == InvalidInput
    ensures var rejected := Apply(m, command, author).Err?;
            match command
            case Enqueue(_, _, dependencies) => rejected <==> !NoneWithdrawn(m, dependencies)
            case Incorporate(_) => rejected <==> m.generation == 0
            case Move(selected, before) =>
              rejected <==> !RespectsDependencies(m.rows, MoveOrder(m.order, selected.id, before).value)
            case Reorder(order) => rejected <==> !RespectsDependencies(m.rows, order)
            case _ => !rejected
  {
    hide RowsOk, RequestsOk, PositionValid, RespectsDependencies, MarkTaken, HasPendingDependent, ItemDepsIncluded, Drop,
      LatestBefore, NoneWithdrawn, MoveOrder;
    var n := Mutate(m, command, author).value;
    MutateKeepsShape(m, command, author, n);
    AdvanceKeepsOrderValid(n, command);
    if command.Reorder? {
      ReorderIsPermutation(m.order, command.order);
      PermutedOrderValid(m, n);
    } else if command.Move? {
      assert m.rows[PendingIndex(m.rows, command.selected).value].selected.id in m.order;
      MoveIsPermutation(m.order, command.selected.id, command.before);
      PermutedOrderValid(m, n);
    }
  }
}
