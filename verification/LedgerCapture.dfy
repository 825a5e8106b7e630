/**
  The greedy capture.  One pass in queue order already selects every input
  whose unincorporated dependencies, however indirect, are all queued, and
  what it selects can be incorporated, whole or as any prefix, without
  changing the captured view.
 */
module LedgerCapture {
  import opened Common
  import opened Text
  import opened LedgerModel
  import opened LedgerInvariant
  import opened LedgerSteps

  ghost predicate DepPath(rows: seq<Row>, p: seq<nat>) {
    p != [] && forall i :: 0 <= i < |p| - 1 ==> p[i + 1] in DepsOf(rows, p[i])
  }

  /** b is a itself or one of its direct or indirect dependencies. */
  ghost predicate Depends(rows: seq<Row>, a: nat, b: nat) {
    exists p: seq<nat> :: DepPath(rows, p) && p[0] == a && Last(p) == b
  }

  /** Everything the input rests on that is not yet incorporated is queued, itself included. */
  ghost predicate Eligible(rows: seq<Row>, id: nat) {
    forall d :: Depends(rows, id, d) && !IsIn(rows, d, Incorporated) ==> IsIn(rows, d, Queued)
  }

  lemma DependsSelf(rows: seq<Row>, a: nat)
    ensures Depends(rows, a, a)
  {
    assert DepPath(rows, [a]) && Last([a]) == a;
  }

  lemma DependsStep(rows: seq<Row>, a: nat, b: nat, c: nat)
    requires b in DepsOf(rows, a) && Depends(rows, b, c)
    ensures Depends(rows, a, c)
  {
    var p: seq<nat> :| DepPath(rows, p) && p[0] == b && Last(p) == c;
    assert DepPath(rows, [a] + p) && Last([a] + p) == c;
  }

  lemma {:induction false} ClosedAlongPath(rows: seq<Row>, closed: seq<nat>, p: seq<nat>)
    requires forall a, d :: a in closed && d in DepsOf(rows, a) ==> d in closed
    requires DepPath(rows, p) && p[0] in closed
    ensures Last(p) in closed
  {
    if |p| > 1 {
      ClosedAlongPath(rows, closed, Init(p));
      assert p[|p| - 1] in DepsOf(rows, Last(Init(p)));
    }
  }

  // ----- the greedy pass -----

  lemma {:induction false} PickSucceeds(m: Model, k: nat)
    requires k <= |m.order| && forall id | id in m.order :: Latest(m.rows, id).Some?
    ensures Pick(m, k).Ok?
  {
    if k > 0 {
      PickSucceeds(m, k - 1);
    }
  }

  /** The selections picked are the newest rows of queued identities among the first k. */
  lemma {:induction false} PickFacts(m: Model, k: nat)
    requires k <= |m.order| && Pick(m, k).Ok?
    ensures forall s | s in Pick(m, k).value ::
              s.id in m.order[..k] && IsIn(m.rows, s.id, Queued) && s == Latest(m.rows, s.id).value.selected
  {
    if k > 0 {
      PickFacts(m, k - 1);
      assert m.order[..k] == m.order[..k - 1] + [m.order[k - 1]];
    }
  }

  lemma NotYetPicked(m: Model, i: nat)
    requires NoDup(m.order) && i < |m.order| && Pick(m, i).Ok?
    ensures m.order[i] !in Ids(Pick(m, i).value)
  {
    hide Pick;
    PickFacts(m, i);
    var before := Pick(m, i).value;
    forall t | 0 <= t < |before| ensures before[t].id != m.order[i] { assert before[t] in before; }
  }

  lemma {:induction false} PickMonotone(m: Model, j: nat, k: nat)
    requires j <= k <= |m.order| && Pick(m, k).Ok?
    ensures Pick(m, j).Ok? && Pick(m, j).value <= Pick(m, k).value
  {
    if j < k {
      PickMonotone(m, j, k - 1);
    }
  }

  function Picked(m: Model): seq<Selection> {
    var r := Pick(m, |m.order|);
    if r.Ok? then r.value else []
  }

  /** An identity that is picked at all is picked when its turn comes. */
  lemma {:induction false} PickedInTurn(m: Model, j: nat, k: nat)
    requires NoDup(m.order) && j < k <= |m.order| && Pick(m, k).Ok? && m.order[j] in Ids(Pick(m, k).value)
    ensures Pick(m, j + 1).Ok? && m.order[j] in Ids(Pick(m, j + 1).value)
  {
    if j + 1 < k {
      var t :| 0 <= t < |Pick(m, k).value| && Ids(Pick(m, k).value)[t] == m.order[j];
      var earlier := Pick(m, k - 1).value;
      assert m.order[k - 1] != m.order[j];
      assert t < |earlier| && Ids(earlier)[t] == m.order[j];
      PickedInTurn(m, j, k - 1);
    }
  }

  lemma PickedDepsInView(m: Model, i: nat)
    requires NoDup(m.order) && i < |m.order| && Pick(m, |m.order|).Ok? && m.order[i] in Ids(Picked(m))
    ensures IsIn(m.rows, m.order[i], Queued)
    ensures forall d | d in DepsOf(m.rows, m.order[i]) :: d in Ids(Flat(m.requests)) || d in Ids(Picked(m))
  {
    PickedInTurn(m, i, |m.order|);
    PickMonotone(m, i, |m.order|);
    PickFacts(m, i + 1);
    NotYetPicked(m, i);
    var before := Pick(m, i).value;
    forall d | d in DepsOf(m.rows, m.order[i])
      ensures d in Ids(Flat(m.requests)) || d in Ids(Picked(m))
    {
      InConcat(Flat(m.requests), before, d);
      InPrefix(before, Picked(m), d);
    }
  }

  lemma PickedBefore(m: Model, i: nat, d: nat)
    requires NoDup(m.order) && i <= |m.order| && Pick(m, |m.order|).Ok? && Pick(m, i).Ok?
    requires d in m.order[..i] && d in Ids(Picked(m))
    ensures d in Ids(Pick(m, i).value)
  {
    hide Pick, NoDup;
    var j :| 0 <= j < i && m.order[j] == d;
    PickedInTurn(m, j, |m.order|);
    PickMonotone(m, j + 1, i);
    InPrefix(Pick(m, j + 1).value, Pick(m, i).value, d);
  }

  lemma ViewDepsPicked(m: Model, i: nat)
    requires NoDup(m.order) && i < |m.order| && Pick(m, |m.order|).Ok? && IsIn(m.rows, m.order[i], Queued)
    requires forall d | d in DepsOf(m.rows, m.order[i]) ::
               d in Ids(Flat(m.requests)) || (d in m.order[..i] && d in Ids(Picked(m)))
    ensures m.order[i] in Ids(Picked(m))
  {
    var n := |m.order|;
    PickMonotone(m, i, n);
    PickMonotone(m, i + 1, n);
    var before, after := Pick(m, i).value, Pick(m, i + 1).value;
    forall d | d in DepsOf(m.rows, m.order[i])
      ensures d in Ids(Flat(m.requests) + before)
    {
      InConcat(Flat(m.requests), before, d);
      if d !in Ids(Flat(m.requests)) {
        PickedBefore(m, i, d);
      }
    }
    hide Flat;
    assert Ids(after)[|before|] == m.order[i];
    InPrefix(after, Picked(m), m.order[i]);
  }

  /** A dependency of a pending input is incorporated, or pending and ordered before it. */
  lemma PendingDep(m: Model, i: nat, d: nat)
    requires Inv(m) && i < |m.order| && d in DepsOf(m.rows, m.order[i])
    ensures (d in Ids(Flat(m.requests)) <==> IsIn(m.rows, d, Incorporated))
    ensures (d in m.order[..i] <==> !IsIn(m.rows, d, Incorporated))
  {
    IncorporatedInFlat(m.rows, m.requests, d);
    assert PositionValid(m, i) && DepMet(m, i, d);
    if d in m.order[..i] {
      assert d in m.order;
    }
  }

  lemma {:induction false} EligiblePicked(m: Model, i: nat)
    requires Inv(m) && i < |m.order| && Eligible(m.rows, m.order[i]) && Pick(m, |m.order|).Ok?
    ensures m.order[i] in Ids(Picked(m))
    decreases i
  {
    var rows, id := m.rows, m.order[i];
    DependsSelf(rows, id);
    assert id in m.order;
    forall d | d in DepsOf(rows, id)
      ensures d in Ids(Flat(m.requests)) || (d in m.order[..i] && d in Ids(Picked(m)))
    {
      PendingDep(m, i, d);
      if d in m.order[..i] {
        var j :| 0 <= j < i && m.order[j] == d;
        forall e | Depends(rows, d, e) ensures Depends(rows, id, e) { DependsStep(rows, id, d, e); }
        EligiblePicked(m, j);
      }
    }
    ViewDepsPicked(m, i);
  }

  /** Everything an incorporated or picked input rests on is itself incorporated or picked. */
  lemma ViewIsClosed(m: Model, a: nat, d: nat)
    requires Inv(m) && Pick(m, |m.order|).Ok? && d in DepsOf(m.rows, a)
    requires a in Ids(Flat(m.requests)) + Ids(Picked(m))
    ensures d in Ids(Flat(m.requests)) + Ids(Picked(m))
  {
    var flat := Flat(m.requests);
    if a in Ids(flat) {
      var t :| 0 <= t < |flat| && Ids(flat)[t] == a;
      assert DepsBefore(m.rows, flat, t);
    } else {
      var t :| 0 <= t < |Picked(m)| && Ids(Picked(m))[t] == a;
      PickFacts(m, |m.order|);
      assert Picked(m)[t].id in m.order[..|m.order|];
      var i :| 0 <= i < |m.order| && m.order[i] == a;
      PickedDepsInView(m, i);
    }
  }

  lemma PickedEligible(m: Model, id: nat)
    requires Inv(m) && Pick(m, |m.order|).Ok? && id in Ids(Picked(m))
    ensures id in m.order && Eligible(m.rows, id)
  {
    hide OrderOk, OrderValid, Flat, Pick, IsIn, DepsOf, RowsOk, RequestsOk;
    var view := Ids(Flat(m.requests)) + Ids(Picked(m));
    PickFacts(m, |m.order|);
    assert forall s | s in Picked(m) :: s.id in m.order[..|m.order|] && IsIn(m.rows, s.id, Queued);
    forall d | Depends(m.rows, id, d) && !IsIn(m.rows, d, Incorporated)
      ensures IsIn(m.rows, d, Queued)
    {
      var p: seq<nat> :| DepPath(m.rows, p) && p[0] == id && Last(p) == d;
      forall a, e | a in view && e in DepsOf(m.rows, a) ensures e in view { ViewIsClosed(m, a, e); }
      ClosedAlongPath(m.rows, view, p);
      IncorporatedInFlat(m.rows, m.requests, d);
    }
  }

  /**
    The captured pending list holds exactly the newest selections of the pending inputs whose
    unincorporated transitive dependencies are all queued, and no identity twice.
   */
  lemma CaptureSelectsExactlyEligible(m: Model, s: Selection)
    requires Inv(m)
    ensures Pick(m, |m.order|) == Ok(Picked(m))
    ensures s in Picked(m) <==>
            s.id in m.order && Eligible(m.rows, s.id) && s == Latest(m.rows, s.id).value.selected
  {
    PickSucceeds(m, |m.order|);
    PickFacts(m, |m.order|);
    if s in Picked(m) {
      var t :| 0 <= t < |Picked(m)| && Picked(m)[t] == s;
      assert Ids(Picked(m))[t] == s.id;
      PickedEligible(m, s.id);
    }
    if s.id in m.order && Eligible(m.rows, s.id) && s == Latest(m.rows, s.id).value.selected {
      var i :| 0 <= i < |m.order| && m.order[i] == s.id;
      EligiblePicked(m, i);
      var t :| 0 <= t < |Picked(m)| && Ids(Picked(m))[t] == s.id;
      assert Picked(m)[t] in Picked(m);
    }
  }

  /** The picked identities stand in queue order. */
  lemma {:induction false} PickInOrder(m: Model, k: nat)
    requires NoDup(m.order) && k <= |m.order| && Pick(m, k).Ok?
    ensures Ids(Pick(m, k).value) == Keep(m.order[..k], Ids(Pick(m, k).value))
  {
    if k > 0 {
      var id, front := m.order[k - 1], m.order[..k - 1];
      PickInOrder(m, k - 1);
      NotYetPicked(m, k - 1);
      PickedNext(m, k - 1);
      assert m.order[..k] == front + [id];
      InOrderNext(front, id, Ids(Pick(m, k - 1).value), Ids(Pick(m, k).value));
    }
  }

  lemma PickedNext(m: Model, i: nat)
    requires i < |m.order| && Pick(m, i + 1).Ok?
    ensures Pick(m, i).Ok?
    ensures Ids(Pick(m, i + 1).value) == Ids(Pick(m, i).value) ||
            Ids(Pick(m, i + 1).value) == Ids(Pick(m, i).value) + [m.order[i]]
  {
  }

  lemma InOrderNext(front: seq<nat>, id: nat, before: seq<nat>, after: seq<nat>)
    requires before == Keep(front, before) && id !in front && id !in before
    requires after == before || after == before + [id]
    ensures after == Keep(front + [id], after)
  {
    assert Init(front + [id]) == front;
    KeepSame(front, before, after);
  }

  // ----- rendering -----

  lemma {:induction false} LinesSucceed(rows: seq<Row>, items: seq<Selection>)
    requires forall s | s in items :: Exact(rows, s).Ok?
    ensures Lines(rows, items).Ok? && |Lines(rows, items).value| == |items|
    ensures forall i | 0 <= i < |items| :: Lines(rows, items).value[i] == UserLine(Exact(rows, items[i]).value)
  {
    if items != [] {
      LinesSucceed(rows, Init(items));
    }
  }

  lemma LatestIsExact(rows: seq<Row>, s: Selection)
    requires RowsOk(rows) && Latest(rows, s.id).Some? && Latest(rows, s.id).value.selected == s
    ensures Exact(rows, s) == Ok(Latest(rows, s.id).value)
  {
  }

  /** Every selection in a captured view is the newest row of its identity. */
  lemma ViewRows(m: Model, s: Selection)
    requires Inv(m) && s in Flat(m.requests) + Picked(m)
    ensures Latest(m.rows, s.id).Some? && Latest(m.rows, s.id).value.selected == s
    ensures Exact(m.rows, s) == Ok(Latest(m.rows, s.id).value)
  {
    CaptureSelectsExactlyEligible(m, s);
    if s in Flat(m.requests) {
      FlatListed(m.requests, s);
      var v :| Listed(m.requests, v, s);
      assert Bound(m.rows, v, s);
    }
    LatestIsExact(m.rows, s);
  }

  function Conversation(m: Model, pending: bool): string {
    var lines := Lines(m.rows, Flat(m.requests) + if pending then Picked(m) else []);
    if lines.Ok? then Join(lines.value) else ""
  }

  /** On a reachable ledger only the size of the conversation can make a capture fail. */
  lemma CaptureFailsOnlyForCapacity(m: Model, pending: bool, max: nat)
    requires Inv(m)
    ensures var included := Flat(m.requests) + if pending then Picked(m) else [];
            CaptureView(m, pending, max) ==
            if |Utf8(Conversation(m, pending))| > max then Err(Capacity)
            else Ok(Capture(m.generation, if pending then Picked(m) else [], included, [], Conversation(m, pending)))
    ensures forall s | s in Flat(m.requests) + Picked(m) :: Exact(m.rows, s).Ok?
  {
    PickSucceeds(m, |m.order|);
    forall s | s in Flat(m.requests) + Picked(m) ensures Exact(m.rows, s).Ok? { ViewRows(m, s); }
    LinesSucceed(m.rows, Flat(m.requests) + if pending then Picked(m) else []);
  }

  // ----- incorporating what was captured -----

  lemma PrefixKept(m: Model, items: seq<Selection>)
    requires Inv(m) && items <= Picked(m)
    ensures Keep(m.order, Ids(items)) == Ids(items)
  {
    PickSucceeds(m, |m.order|);
    PrefixInOrder(m, |items|);
    assert items == Picked(m)[..|items|];
  }

  lemma PrefixInOrder(m: Model, k: nat)
    requires NoDup(m.order) && Pick(m, |m.order|).Ok? && k <= |Picked(m)|
    ensures Keep(m.order, Ids(Picked(m)[..k])) == Ids(Picked(m)[..k])
  {
    PickInOrder(m, |m.order|);
    assert m.order[..|m.order|] == m.order;
    KeepPrefix(m.order, Ids(Picked(m)), k);
    assert Ids(Picked(m)[..k]) == Ids(Picked(m))[..k];
  }

  lemma PickedItem(m: Model, s: Selection)
    requires Inv(m) && s in Picked(m)
    ensures PendingIndex(m.rows, s).Ok? && m.rows[PendingIndex(m.rows, s).value].state == Queued && s.revision >= 1
  {
    PickSucceeds(m, |m.order|);
    PickFacts(m, |m.order|);
    assert RowOk(m.rows, LatestIndex(m.rows, s.id).value);
  }

  lemma PrefixQueued(m: Model, items: seq<Selection>)
    requires Inv(m) && items <= Picked(m)
    ensures FirstItemError(m.rows, items).None?
    ensures forall i | 0 <= i < |items| :: items[i].revision != 0
  {
    hide Inv, Picked, PendingIndex, FirstItemError;
    forall s | s in items
      ensures PendingIndex(m.rows, s).Ok? && m.rows[PendingIndex(m.rows, s).value].state == Queued && s.revision >= 1
    {
      assert s in Picked(m);
      PickedItem(m, s);
    }
    ItemsQueued(m.rows, items);
  }

  lemma PrefixDeps(m: Model, items: seq<Selection>, t: nat)
    requires Inv(m) && items <= Picked(m) && t < |items|
    ensures ItemDepsIncluded(m, items, t)
  {
    assert items[t] in Picked(m);
    CaptureSelectsExactlyEligible(m, items[t]);
    PickSucceeds(m, |m.order|);
    var i :| 0 <= i < |m.order| && m.order[i] == items[t].id;
    assert Ids(items)[..t] == Ids(Picked(m))[..t];
    forall d | d in DepsOf(m.rows, items[t].id)
      ensures d in Ids(Flat(m.requests)) || d in Ids(items)[..t]
    {
      PickedDepEarlier(m, t, i, d);
    }
  }

  ghost predicate Unused(m: Model, invocation: nat) {
    forall i | 0 <= i < |m.requests| :: m.requests[i].invocation != invocation
  }

  lemma PrefixAccepted(m: Model, request: Request)
    requires Inv(m) && request.items <= Picked(m) && Unused(m, request.invocation)
    ensures IncorporateRequest(m, request).Ok? && ConstructorValid(Incorporate(request))
  {
    hide Inv, Pick, Picked, FirstItemError, ItemDepsIncluded, Keep, Ids, MarkTaken, Drop;
    var items := request.items;
    PrefixKept(m, items);
    PrefixQueued(m, items);
    forall t | 0 <= t < |items| ensures ItemDepsIncluded(m, items, t) { PrefixDeps(m, items, t); }
  }

  // ----- incorporation leaves the captured view as it was -----

  lemma IncorporateKeepsEligible(m: Model, request: Request, n: Model, id: nat)
    requires Inv(m) && IncorporateRequest(m, request) == Ok(n)
    ensures Eligible(n.rows, id) <==> Eligible(m.rows, id)
  {
    MarkedRows(m, request, n);
    ItemsQueued(m.rows, request.items);
    assert forall a :: DepsOf(n.rows, a) == DepsOf(m.rows, a);
    assert forall p: seq<nat> :: DepPath(n.rows, p) <==> DepPath(m.rows, p);
    forall d
      ensures Depends(n.rows, id, d) <==> Depends(m.rows, id, d)
      ensures IsIn(n.rows, d, Incorporated) || IsIn(n.rows, d, Queued) <==>
              IsIn(m.rows, d, Incorporated) || IsIn(m.rows, d, Queued)
    {
      if d in Ids(request.items) {
        var t :| 0 <= t < |request.items| && Ids(request.items)[t] == d;
        assert request.items[t] in request.items;
      }
    }
  }

  /** Any accepted request takes only eligible inputs, so the next capture picks the others. */
  lemma PickedAfter(m: Model, request: Request, n: Model, s: Selection)
    requires Inv(m) && IncorporateRequest(m, request) == Ok(n) && Inv(n)
    ensures s in Picked(n) <==> s in Picked(m) && s.id !in Ids(request.items)
  {
    CaptureSelectsExactlyEligible(m, s);
    CaptureSelectsExactlyEligible(n, s);
    IncorporateKeepsEligible(m, request, n, s.id);
    MarkedRows(m, request, n);
  }

  lemma RemainderIds(m: Model, request: Request, n: Model)
    requires Inv(m) && request.items <= Picked(m) && IncorporateRequest(m, request) == Ok(n) && Inv(n)
    ensures Ids(Picked(n)) == Ids(Picked(m))[|request.items|..]
  {
    RequestTaken(m, request, n);
    hide IncorporateRequest, RowsOk, RequestsOk, OrderValid, Pick, Keep, Drop;
    PickSucceeds(m, |m.order|);
    PickSucceeds(n, |n.order|);
    PickInOrder(m, |m.order|);
    PickInOrder(n, |n.order|);
    assert m.order[..|m.order|] == m.order && n.order[..|n.order|] == n.order;
    assert Ids(request.items) == Ids(Picked(m))[..|request.items|];
    forall x | x in n.order ensures x in Ids(Picked(m)) <==> x in Ids(Picked(n)) {
      PickedIdAfter(m, request, n, x);
    }
    KeepRemainder(m.order, Ids(Picked(m)), |request.items|, Ids(Picked(n)));
  }

  /** Incorporating the first captured inputs leaves exactly the rest to be captured next. */
  lemma PrefixRemainder(m: Model, request: Request, n: Model)
    requires Inv(m) && request.items <= Picked(m) && IncorporateRequest(m, request) == Ok(n) && Inv(n)
    ensures Picked(n) == Picked(m)[|request.items|..]
  {
    hide Inv, Picked, IncorporateRequest, Eligible, Latest;
    var k := |request.items|;
    RemainderIds(m, request, n);
    assert |Picked(n)| == |Ids(Picked(n))| && |Picked(m)| == |Ids(Picked(m))|;
    forall t | 0 <= t < |Picked(n)| ensures Picked(n)[t] == Picked(m)[k + t] {
      var s, s' := Picked(m)[k + t], Picked(n)[t];
      assert Ids(Picked(n))[t] == Ids(Picked(m))[k + t];
      PickedAfter(m, request, n, s');
      CaptureSelectsExactlyEligible(m, s);
      CaptureSelectsExactlyEligible(m, s');
    }
  }

  lemma PickedIdAfter(m: Model, request: Request, n: Model, x: nat)
    requires Inv(m) && IncorporateRequest(m, request) == Ok(n) && Inv(n) && x in n.order
    ensures x in Ids(Picked(m)) <==> x in Ids(Picked(n))
  {
    hide Inv, Picked, IncorporateRequest;
    RequestTaken(m, request, n);
    if x in Ids(Picked(m)) {
      var t :| 0 <= t < |Picked(m)| && Ids(Picked(m))[t] == x;
      PickedAfter(m, request, n, Picked(m)[t]);
      var u :| 0 <= u < |Picked(n)| && Picked(n)[u] == Picked(m)[t];
      assert Ids(Picked(n))[u] == x;
    }
    if x in Ids(Picked(n)) {
      var t :| 0 <= t < |Picked(n)| && Ids(Picked(n))[t] == x;
      PickedAfter(m, request, n, Picked(n)[t]);
      var u :| 0 <= u < |Picked(m)| && Picked(m)[u] == Picked(n)[t];
      assert Ids(Picked(m))[u] == x;
    }
  }

  lemma {:induction false} LinesKept(rows: seq<Row>, rows': seq<Row>, items: seq<Selection>)
    requires Restated(rows, rows')
    ensures Lines(rows', items) == Lines(rows, items)
  {
    if items != [] {
      LinesKept(rows, rows', Init(items));
      ExactKept(rows, rows', Last(items));
    }
  }

  lemma ExactKept(rows: seq<Row>, rows': seq<Row>, s: Selection)
    requires Restated(rows, rows')
    ensures ExactIndex(rows', s) == ExactIndex(rows, s)
  {
  }

  lemma PrefixApplied(m: Model, request: Request, author: nat)
    requires Inv(m) && m.generation > 0 && Unused(m, request.invocation) && request.items <= Picked(m)
    ensures Apply(m, Incorporate(request), author).Ok?
    ensures Apply(m, Incorporate(request), author) == IncorporateRequest(m, request)
    ensures Inv(Apply(m, Incorporate(request), author).value)
  {
    hide Inv, ConstructorValid, IncorporateRequest, Admissible, Picked, Unused;
    PrefixAccepted(m, request);
    ClosingCheckIsExact(m, Incorporate(request), author);
    ApplyKeepsInvariant(m, Incorporate(request), author);
  }

  lemma SameView(m: Model, request: Request, n: Model)
    requires Inv(m) && request.items <= Picked(m) && IncorporateRequest(m, request) == Ok(n) && Inv(n)
    ensures Picked(n) == Picked(m)[|request.items|..] && n.generation == m.generation
    ensures Flat(n.requests) + Picked(n) == Flat(m.requests) + Picked(m)
    ensures Conversation(n, true) == Conversation(m, true)
  {
    hide Inv, Picked, Restated, Lines, Join;
    PrefixRemainder(m, request, n);
    FlatGrows(m.requests, request);
    assert Flat(n.requests) + Picked(n) == Flat(m.requests) + Picked(m);
    MarkedRows(m, request, n);
    LinesKept(m.rows, n.rows, Flat(m.requests) + Picked(m));
  }

  /**
    Capture and incorporation fit.  With a positive generation and an unused invocation, any prefix
    of the captured list is accepted, the closing check included; the next capture then lists the
    rest as pending, includes the same selections in the same order, and renders the same text.
   */
  lemma CapturedPrefixIncorporates(m: Model, request: Request, author: nat, max: nat)
    requires Inv(m) && m.generation > 0 && Unused(m, request.invocation)
    requires CaptureView(m, true, max).Ok? && request.items <= CaptureView(m, true, max).value.pending
    ensures Apply(m, Incorporate(request), author).Ok?
    ensures var n := Apply(m, Incorporate(request), author).value;
            var seen := CaptureView(m, true, max).value;
            CaptureView(n, true, max) == Ok(seen.(pending := seen.pending[|request.items|..]))
  {
    hide Inv, CaptureView, Picked, Conversation, Unused, IncorporateRequest, Apply, ByteLen;
    CaptureFailsOnlyForCapacity(m, true, max);
    PrefixApplied(m, request, author);
    var n := Apply(m, Incorporate(request), author).value;
    CaptureFailsOnlyForCapacity(n, true, max);
    SameView(m, request, n);
  }

  /** When the turn of a picked identity comes, everything it rests on is included and it is appended. */
  lemma PickedAtTurn(m: Model, i: nat)
    requires NoDup(m.order) && Pick(m, |m.order|).Ok? && i < |m.order| && m.order[i] in Ids(Picked(m))
    ensures Pick(m, i).Ok? && Pick(m, i + 1).Ok? && Pick(m, i).value < Pick(m, i + 1).value <= Picked(m)
    ensures |Pick(m, i + 1).value| == |Pick(m, i).value| + 1 && Last(Pick(m, i + 1).value).id == m.order[i]
    ensures forall d | d in DepsOf(m.rows, m.order[i]) :: d in Ids(Flat(m.requests) + Pick(m, i).value)
  {
    PickMonotone(m, i, |m.order|);
    PickMonotone(m, i + 1, |m.order|);
    PickedInTurn(m, i, |m.order|);
    NotYetPicked(m, i);
  }

  /** In the picked list itself, every dependency is incorporated or stands earlier. */
  lemma PickedDepEarlier(m: Model, t: nat, i: nat, d: nat)
    requires NoDup(m.order) && Pick(m, |m.order|).Ok?
    requires t < |Picked(m)| && i < |m.order| && m.order[i] == Picked(m)[t].id
    requires d in DepsOf(m.rows, m.order[i])
    ensures d in Ids(Flat(m.requests)) || d in Ids(Picked(m))[..t]
  {
    hide NoDup, Pick, Picked, DepsOf, Flat;
    var picked := Picked(m);
    assert Ids(picked)[t] == m.order[i];
    PickedAtTurn(m, i);
    var before, after := Pick(m, i).value, Pick(m, i + 1).value;
    assert picked[|before|] == Last(after);
    PickedOnce(m, t, |before|);
    InConcat(Flat(m.requests), before, d);
    assert Ids(before) == Ids(picked)[..t];
  }

  lemma PickedOnce(m: Model, t: nat, u: nat)
    requires NoDup(m.order) && Pick(m, |m.order|).Ok?
    requires t < |Picked(m)| && u < |Picked(m)| && Picked(m)[t].id == Picked(m)[u].id
    ensures t == u
  {
    PickInOrder(m, |m.order|);
    KeepNoDup(m.order[..|m.order|], Ids(Picked(m)));
    assert Ids(Picked(m))[t] == Ids(Picked(m))[u];
  }

  lemma InConcat(a: seq<Selection>, b: seq<Selection>, id: nat)
    ensures id in Ids(a + b) <==> id in Ids(a) || id in Ids(b)
  {
    assert Ids(a + b) == Ids(a) + Ids(b);
  }

  lemma InPrefix(a: seq<Selection>, b: seq<Selection>, id: nat)
    requires a <= b
    ensures id in Ids(a) ==> id in Ids(b)
  {
  }
}
