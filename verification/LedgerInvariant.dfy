/**
  What every run of the ledger keeps: the shape of the history, of the pending
  order and of the requests.  The main results are `RunKeepsInvariant` and the
  exact conditions under which the closing order check accepts a command.
 */
module LedgerInvariant {
  import opened Common
  import opened LedgerModel

  predicate IsIn(rows: seq<Row>, id: nat, state: State) {
    Latest(rows, id).Some? && Latest(rows, id).value.state == state
  }

  function DepsOf(rows: seq<Row>, id: nat): seq<nat> {
    if Latest(rows, id).Some? then Latest(rows, id).value.dependencies else []
  }

  ghost predicate HasBefore(rows: seq<Row>, k: nat, id: nat)
    requires k <= |rows|
  {
    exists j :: 0 <= j < k && rows[j].selected.id == id
  }

  ghost predicate HasAfter(rows: seq<Row>, k: nat, id: nat) {
    exists j :: k < j < |rows| && rows[j].selected.id == id
  }

  /** Row j, before k, is exactly `selected` and is incorporated when `done`. */
  ghost predicate ExactBefore(rows: seq<Row>, k: nat, selected: Selection, done: bool)
    requires k <= |rows|
  {
    exists j :: 0 <= j < k && rows[j].selected == selected && (done ==> rows[j].state == Incorporated)
  }

  ghost predicate RowOk(rows: seq<Row>, k: nat)
    requires k < |rows|
  {
    var r := rows[k];
    && r.selected.revision >= 1
    && (r.selected.revision > 1 ==>
          ExactBefore(rows, k, Selection(r.selected.id, r.selected.revision - 1), false))
    && (r.state == Superseded <==> HasAfter(rows, k, r.selected.id))
    && NoDup(r.dependencies)
    && r.selected.id !in r.dependencies
    && (forall d | d in r.dependencies :: HasBefore(rows, k, d))
    && (r.state == Incorporated <==> r.invocation.Some?)
    && (r.correction.Some? ==> ExactBefore(rows, k, r.correction.value, true))
  }

  ghost predicate RowsOk(rows: seq<Row>) {
    && (forall k :: 0 <= k < |rows| ==> RowOk(rows, k))
    && (forall i, j :: 0 <= i < j < |rows| && rows[i].selected.id == rows[j].selected.id ==>
          rows[i].selected.revision < rows[j].selected.revision)
  }

  /** The order lists, without repetition, exactly the identities whose newest row is pending. */
  ghost predicate OrderOk(rows: seq<Row>, order: seq<nat>) {
    && NoDup(order)
    && (forall id :: id in order ==> Latest(rows, id).Some? && Latest(rows, id).value.state.Pending())
    && (forall k :: 0 <= k < |rows| && rows[k].state.Pending() ==> rows[k].selected.id in order)
  }

  /** `selected` is the newest row of its identity and was incorporated by `invocation`. */
  ghost predicate Bound(rows: seq<Row>, invocation: nat, selected: Selection) {
    var row := Latest(rows, selected.id);
    row.Some? && row.value.selected == selected && row.value.state == Incorporated
    && row.value.invocation == Some(invocation)
  }

  ghost predicate Listed(requests: seq<Request>, invocation: nat, selected: Selection) {
    exists i :: 0 <= i < |requests| && requests[i].invocation == invocation && selected in requests[i].items
  }

  /** Every dependency of `flat[t]` occurs strictly before position t. */
  ghost predicate DepsBefore(rows: seq<Row>, flat: seq<Selection>, t: nat)
    requires t < |flat|
  {
    var row := Latest(rows, flat[t].id);
    row.Some? && forall d | d in row.value.dependencies :: d in Ids(flat)[..t]
  }

  ghost predicate RequestsOk(rows: seq<Row>, requests: seq<Request>) {
    && (forall i, j :: 0 <= i < j < |requests| ==> requests[i].invocation != requests[j].invocation)
    && NoDup(Ids(Flat(requests)))
    && (forall v, s :: Listed(requests, v, s) ==> Bound(rows, v, s))
    && (forall k :: 0 <= k < |rows| && rows[k].state == Incorporated ==>
          rows[k].invocation.Some? && Listed(requests, rows[k].invocation.value, rows[k].selected))
    && (forall t :: 0 <= t < |Flat(requests)| ==> DepsBefore(rows, Flat(requests), t))
  }

  ghost predicate Shape(m: Model) {
    RowsOk(m.rows) && OrderOk(m.rows, m.order) && RequestsOk(m.rows, m.requests)
  }

  ghost predicate Inv(m: Model) {
    Shape(m) && Admissible(m)
  }

  // ----- row updates that keep identities, dependencies and supersession -----

  ghost predicate Restated(rows: seq<Row>, rows': seq<Row>) {
    && |rows| == |rows'|
    && forall k :: 0 <= k < |rows| ==>
         && rows'[k] == rows[k].(state := rows'[k].state, invocation := rows'[k].invocation)
         && (rows[k].state == Superseded <==> rows'[k].state == Superseded)
         && (rows[k].state == Incorporated ==> rows'[k] == rows[k])
         && (rows'[k] == rows[k] || (rows'[k].state == Incorporated <==> rows'[k].invocation.Some?))
  }

  lemma LookupSame(rows: seq<Row>, rows': seq<Row>, id: nat)
    requires |rows| == |rows'| && forall i :: 0 <= i < |rows| ==> rows'[i].selected == rows[i].selected
    ensures LatestIndex(rows', id) == LatestIndex(rows, id)
  {
  }

  lemma RestatedRows(rows: seq<Row>, rows': seq<Row>)
    requires RowsOk(rows) && Restated(rows, rows')
    ensures RowsOk(rows')
  {
    forall k | 0 <= k < |rows|
      ensures RowOk(rows', k)
    {
      assert RowOk(rows, k);
      RowOkCarries(rows, rows', k);
    }
  }

  /** A row stays well formed when later history only adds rows and keeps what it refers to. */
  lemma RowOkCarries(rows: seq<Row>, rows': seq<Row>, k: nat)
    requires k < |rows| <= |rows'| && RowOk(rows, k)
    requires forall j :: 0 <= j < |rows| ==>
               rows'[j].selected == rows[j].selected && (rows[j].state == Incorporated ==> rows'[j].state == Incorporated)
    requires rows'[k] == rows[k].(state := rows'[k].state, invocation := rows'[k].invocation)
    requires rows'[k].state == Incorporated <==> rows'[k].invocation.Some?
    requires rows'[k].state == Superseded <==> HasAfter(rows', k, rows[k].selected.id)
    ensures RowOk(rows', k)
  {
  }

  /** Appending the first revision of a fresh identity. */
  lemma PushFresh(rows: seq<Row>, row: Row)
    requires RowsOk(rows) && LatestIndex(rows, row.selected.id).None?
    requires row.selected.revision == 1 && row.state == Queued && row.invocation.None?
    requires NoDup(row.dependencies) && row.selected.id !in row.dependencies
    requires forall d | d in row.dependencies :: LatestIndex(rows, d).Some?
    requires row.correction.Some? ==> ExactBefore(rows, |rows|, row.correction.value, true)
    ensures RowsOk(rows + [row])
  {
    var rows' := rows + [row];
    forall k | 0 <= k < |rows|
      ensures RowOk(rows', k)
    {
      assert RowOk(rows, k);
      RowOkCarries(rows, rows', k);
    }
    forall d | d in row.dependencies
      ensures HasBefore(rows', |rows|, d)
    {
      assert rows'[LatestIndex(rows, d).value].selected.id == d;
    }
    if row.correction.Some? {
      var j :| 0 <= j < |rows| && rows[j].selected == row.correction.value && rows[j].state == Incorporated;
      assert rows'[j] == rows[j];
    }
    assert RowOk(rows', |rows|);
  }

  lemma PushLookup(rows: seq<Row>, rows': seq<Row>, id: nat)
    requires |rows'| == |rows| + 1
    requires forall i :: 0 <= i < |rows| ==> rows'[i].selected == rows[i].selected
    ensures LatestIndex(rows', id) == if Last(rows').selected.id == id then Some(|rows|) else LatestIndex(rows, id)
  {
  }

  /** Superseding the newest row and appending its replacement. */
  lemma PushRevision(rows: seq<Row>, k: nat, row: Row)
    requires RowsOk(rows) && k < |rows| && LatestIndex(rows, rows[k].selected.id) == Some(k)
    requires rows[k].state.Pending()
    requires row == rows[k].(selected := Selection(rows[k].selected.id, rows[k].selected.revision + 1),
                             author := row.author, text := row.text)
    ensures RowsOk(SetState(rows, k, Superseded) + [row])
  {
    var rows' := SetState(rows, k, Superseded) + [row];
    assert RowOk(rows, k);
    assert rows'[|rows|] == row;
    forall i | 0 <= i < |rows|
      ensures RowOk(rows', i)
    {
      assert RowOk(rows, i);
      RowOkCarries(rows, rows', i);
    }
    forall d | d in row.dependencies
      ensures HasBefore(rows', |rows|, d)
    {
      var j :| 0 <= j < k && rows[j].selected.id == d;
      assert rows'[j].selected.id == d;
    }
    if row.correction.Some? {
      var j :| 0 <= j < k && rows[j].selected == row.correction.value && rows[j].state == Incorporated;
      assert rows'[j] == rows[j];
    }
    assert rows'[k].selected == Selection(row.selected.id, row.selected.revision - 1);
    assert RowOk(rows', |rows|);
    hide RowOk;
  }

  // ----- consequences of the history shape -----

  lemma LatestIsCurrent(rows: seq<Row>, k: nat)
    requires RowsOk(rows) && k < |rows|
    ensures rows[k].state != Superseded <==> LatestIndex(rows, rows[k].selected.id) == Some(k)
  {
    assert RowOk(rows, k);
  }

  lemma {:induction false} FlatListed(requests: seq<Request>, s: Selection)
    ensures s in Flat(requests) <==> exists v :: Listed(requests, v, s)
  {
    if requests != [] {
      FlatListed(Init(requests), s);
      if s in Flat(Init(requests)) {
        var v :| Listed(Init(requests), v, s);
        var i :| 0 <= i < |Init(requests)| && Init(requests)[i].invocation == v && s in Init(requests)[i].items;
        assert requests[i].invocation == v && s in requests[i].items;
        assert Listed(requests, v, s);
      } else if s in Last(requests).items {
        assert Listed(requests, Last(requests).invocation, s);
      }
      forall v | Listed(requests, v, s)
        ensures s in Flat(requests)
      {
        var i :| 0 <= i < |requests| && requests[i].invocation == v && s in requests[i].items;
        if i < |requests| - 1 {
          assert Init(requests)[i].invocation == v && s in Init(requests)[i].items;
          assert Listed(Init(requests), v, s);
        }
      }
    }
  }

  /** An identity occurs in some request exactly when its newest row is incorporated. */
  lemma IncorporatedInFlat(rows: seq<Row>, requests: seq<Request>, id: nat)
    requires RowsOk(rows) && RequestsOk(rows, requests)
    ensures id in Ids(Flat(requests)) <==> IsIn(rows, id, Incorporated)
  {
    var flat := Flat(requests);
    if id in Ids(flat) {
      var t :| 0 <= t < |flat| && flat[t].id == id;
      FlatListed(requests, flat[t]);
      var v :| Listed(requests, v, flat[t]);
      assert Bound(rows, v, flat[t]);
    }
    if IsIn(rows, id, Incorporated) {
      var k := LatestIndex(rows, id).value;
      assert rows[k].state == Incorporated;
      assert Listed(requests, rows[k].invocation.value, rows[k].selected);
      FlatListed(requests, rows[k].selected);
      var t :| 0 <= t < |flat| && flat[t] == rows[k].selected;
      assert Ids(flat)[t] == id;
    }
  }

  // ----- the requests survive every update that leaves incorporated rows alone -----

  lemma RequestsCarry(rows: seq<Row>, rows': seq<Row>, requests: seq<Request>)
    requires RequestsOk(rows, requests)
    requires forall id :: IsIn(rows, id, Incorporated) ==> Latest(rows', id) == Latest(rows, id)
    requires forall k :: 0 <= k < |rows'| && rows'[k].state == Incorporated ==> k < |rows| && rows'[k] == rows[k]
    ensures RequestsOk(rows', requests)
  {
    var flat := Flat(requests);
    forall t | 0 <= t < |flat|
      ensures DepsBefore(rows', flat, t)
    {
      assert DepsBefore(rows, flat, t);
      FlatListed(requests, flat[t]);
      var v :| Listed(requests, v, flat[t]);
      assert Bound(rows, v, flat[t]);
    }
    forall v, s | Listed(requests, v, s)
      ensures Bound(rows', v, s)
    {
      assert Bound(rows, v, s);
    }
  }
}
