/** The ledger as the code runs it: fields changed in place, loops that grow lists. */
module LedgerMachine {
  import opened Common
  import opened Text
  import opened LedgerModel

  class Ledger {
    var rows: seq<Row>
    var order: seq<nat>
    var requests: seq<Request>
    var generation: nat

    function Value(): Model
      reads this
    {
      Model(rows, order, requests, generation)
    }

    constructor ()
      ensures Value() == EMPTY
    {
      rows, order, requests, generation := [], [], [], 0;
    }

    constructor Clone(m: Model)
      ensures Value() == m
    {
      rows, order, requests, generation := m.rows, m.order, m.requests, m.generation;
    }

    /** Appends the first revision of a new identity. */
    method EnqueueInput(id: nat, author: nat, text: string, dependencies: seq<nat>, correction: Option<Selection>)
      returns (r: Result<Unit>)
      modifies this
      ensures match EnqueueRow(old(Value()), id, author, text, dependencies, correction)
              case Ok(n) => r == Ok(Unit) && Value() == n
              case Err(e) => r == Err(e) && Value() == old(Value())
    {
      if LatestIndex(rows, id).Some? {
        return Err(IdempotencyConflict);
      }
      for i := 0 to |dependencies|
        invariant Value() == old(Value())
        invariant forall j | 0 <= j < i ::
                    dependencies[j] != id && LatestIndex(rows, dependencies[j]).Some? && dependencies[j] !in dependencies[..j]
      {
        if dependencies[i] == id || LatestIndex(rows, dependencies[i]).None? || dependencies[i] in dependencies[..i] {
          return Err(InvalidInput);
        }
      }
      rows := rows + [Row(Selection(id, 1), author, text, dependencies, Queued, correction, None)];
      order := order + [id];
      return Ok(Unit);
    }

    /** The indices of all items first, so that a bad item is reported before any dependency. */
    method ItemIndices(items: seq<Selection>) returns (r: Result<seq<nat>>)
      ensures FirstItemError(rows, items).Some? ==> r == Err(FirstItemError(rows, items).value)
      ensures FirstItemError(rows, items).None? ==>
                r.Ok? && |r.value| == |items|
                && forall t | 0 <= t < |items| ::
                     r.value[t] < |rows| && rows[r.value[t]].selected == items[t]
                     && LatestIndex(rows, items[t].id) == Some(r.value[t])
    {
      var indices: seq<nat> := [];
      for t := 0 to |items|
        invariant FirstItemError(rows, items[..t]).None? && |indices| == t
        invariant forall u | 0 <= u < t ::
                    indices[u] < |rows| && rows[indices[u]].selected == items[u]
                    && LatestIndex(rows, items[u].id) == Some(indices[u])
      {
        assert Init(items[..t + 1]) == items[..t];
        var index := PendingIndex(rows, items[t]);
        if index.Err? {
          ErrorIsFirst(rows, items, t + 1);
          return Err(index.error);
        }
        if rows[index.value].state != Queued {
          ErrorIsFirst(rows, items, t + 1);
          return Err(InvalidInput);
        }
        indices := indices + [index.value];
      }
      assert items[..|items|] == items;
      return Ok(indices);
    }

    /** Takes the items one by one, as long as each rests only on what was included before it. */
    method MarkItems(request: Request, indices: seq<nat>) returns (ok: bool)
      requires |indices| == |request.items|
      requires forall t | 0 <= t < |indices| ::
                 indices[t] < |rows| && rows[indices[t]].selected == request.items[t]
                 && LatestIndex(rows, request.items[t].id) == Some(indices[t])
      modifies this`rows
      ensures ok <==> forall t | 0 <= t < |indices| :: ItemDepsIncluded(old(Value()), request.items, t)
      ensures ok ==> rows == MarkTaken(old(rows), request.items, request.invocation)
    {
      ghost var m := Value();
      var items := request.items;
      var included := Ids(Flat(requests));
      assert MarkTaken(rows, items[..0], request.invocation) == rows;
      hide MarkTaken, ItemDepsIncluded, Flat, LatestIndex, Ids;
      for t := 0 to |items|
        invariant rows == MarkTaken(m.rows, items[..t], request.invocation)
        invariant included == Ids(Flat(m.requests)) + Ids(items)[..t]
        invariant forall u | 0 <= u < t :: ItemDepsIncluded(m, items, u)
      {
        var index := indices[t];
        IncludedSoFar(m, request, t, index, rows, included);
        if exists d | d in rows[index].dependencies :: d !in included {
          return false;
        }
        rows := rows[index := rows[index].(state := Incorporated, invocation := Some(request.invocation))];
        included := included + [items[t].id];
      }
      assert items[..|items|] == items;
      return true;
    }

    method IncorporateItems(request: Request) returns (r: Result<Unit>)
      modifies this
      ensures match IncorporateRequest(old(Value()), request)
              case Ok(n) => r == Ok(Unit) && Value() == n
              case Err(e) => r == Err(e)
    {
      var items := request.items;
      if exists i | 0 <= i < |requests| :: requests[i].invocation == request.invocation {
        return Err(IdempotencyConflict);
      }
      if Keep(order, Ids(items)) != Ids(items) {
        return Err(InvalidInput);
      }
      var indices := ItemIndices(items);
      if indices.Err? {
        return Err(indices.error);
      }
      var ok := MarkItems(request, indices.value);
      if !ok {
        return Err(InvalidInput);
      }
      order := Drop(order, Ids(items));
      requests := requests + [request];
      return Ok(Unit);
    }

    method MutateBy(command: Command, author: nat) returns (r: Result<Unit>)
      modifies this
      ensures match Mutate(old(Value()), command, author)
              case Ok(n) => r == Ok(Unit) && Value() == n
              case Err(e) => r == Err(e)
    {
      match command
      case Enqueue(id, text, dependencies) =>
        r := EnqueueInput(id, author, text, dependencies, None);
      case Edit(selected, text) =>
        var index := PendingIndex(rows, selected);
        if index.Err? { return Err(index.error); }
        var row := rows[index.value];
        row := row.(selected := row.selected.(revision := row.selected.revision + 1));
        row := row.(author := author);
        row := row.(text := text);
        rows := SetState(rows, index.value, Superseded);
        rows := rows + [row];
        r := Ok(Unit);
      case Hold(selected, held) =>
        var index := PendingIndex(rows, selected);
        if index.Err? { return Err(index.error); }
        rows := SetState(rows, index.value, if held then Held else Queued);
        r := Ok(Unit);
      case Withdraw(selected) =>
        if HasPendingDependent(Value(), selected.id) { return Err(InvalidInput); }
        var index := PendingIndex(rows, selected);
        if index.Err? { return Err(index.error); }
        rows := SetState(rows, index.value, Withdrawn);
        order := Drop(order, [selected.id]);
        r := Ok(Unit);
      case Move(selected, before) =>
        var index := PendingIndex(rows, selected);
        if index.Err? { return Err(index.error); }
        if before == Some(selected.id) { return Err(InvalidInput); }
        order := Drop(order, [selected.id]);
        var destination := |order|;
        if before.Some? {
          var p := Position(order, before.value);
          if p.None? { return Err(NotFound); }
          destination := p.value;
        }
        order := order[..destination] + [selected.id] + order[destination..];
        r := Ok(Unit);
      case Reorder(proposal) =>
        if |proposal| != |order| || exists i | 0 <= i < |order| :: order[i] !in proposal { return Err(InvalidInput); }
        order := proposal;
        r := Ok(Unit);
      case Correct(original, id, text) =>
        var row := Exact(rows, original);
        if row.Err? { return Err(row.error); }
        if row.value.state != Incorporated { return Err(InvalidInput); }
        r := EnqueueInput(id, author, text, [original.id], Some(original));
      case Incorporate(request) =>
        r := IncorporateItems(request);
    }

    /** A successor ledger or an error; this ledger is left alone either way. */
    method ApplyTo(command: Command, author: nat) returns (r: Result<Ledger>)
      ensures match Apply(Value(), command, author)
              case Ok(n) => r.Ok? && fresh(r.value) && r.value.Value() == n
              case Err(e) => r == Err(e)
    {
      hide Mutate, ConstructorValid, OrderValid;
      if !ConstructorValid(command) {
        return Err(InvalidInput);
      }
      var next := new Ledger.Clone(Value());
      var outcome := next.MutateBy(command, author);
      if outcome.Err? {
        return Err(outcome.error);
      }
      if !command.Incorporate? {
        next.generation := next.generation + 1;
      }
      if !OrderValid(next.Value()) || (next.generation == 0 && (next.rows != [] || next.requests != [])) {
        return Err(InvalidInput);
      }
      return Ok(next);
    }

    method TakeCapture(pending: bool, max: nat) returns (r: Result<Capture>)
      ensures r == CaptureView(Value(), pending, max)
    {
      var included := Flat(requests);
      var pendingItems := [];
      if pending {
        for k := 0 to |order|
          invariant Pick(Value(), k) == Ok(pendingItems)
          invariant included == Flat(requests) + pendingItems
        {
          var row := Latest(rows, order[k]);
          if row.None? {
            PickFails(Value(), k + 1, |order|);
            return Err(InvalidInput);
          }
          if row.value.state == Queued && forall d | d in row.value.dependencies :: d in Ids(included) {
            pendingItems := pendingItems + [row.value.selected];
            included := included + [row.value.selected];
          }
        }
      }
      var lines := Lines(rows, included);
      if lines.Err? {
        return Err(lines.error);
      }
      if ByteLen(Join(lines.value)) > max {
        return Err(Capacity);
      }
      return Ok(Capture(generation, pendingItems, included, [], Join(lines.value)));
    }

    method TakeReplyCapture(replies: seq<Reply>, pending: bool, max: nat) returns (r: Result<Capture>)
      ensures r == CaptureReplies(Value(), replies, pending, max)
    {
      var captured := TakeCapture(pending, max);
      if captured.Err? {
        return captured;
      }
      var capture := captured.value;
      if Charge(replies) + ByteLen(capture.conversation) > max {
        return Err(Capacity);
      }
      if exists i | 0 <= i < |replies| :: !Named(requests, replies[i].invocation)
      {
        return Err(InvalidInput);
      }
      var lastUser := LastUser(requests);
      var all := capture.pending != [];
      var parts, shown := [], [];
      for i := 0 to |requests|
        invariant RequestParts(rows, requests[..i], replies, all, lastUser) == Ok(Parts(parts, shown))
      {
        assert Init(requests[..i + 1]) == requests[..i];
        var lines := Lines(rows, requests[i].items);
        if lines.Err? {
          PartsFail(rows, requests, i + 1, replies, all, lastUser);
          return Err(lines.error);
        }
        parts := parts + lines.value;
        var reply := FindReply(replies, requests[i].invocation);
        if (all || i < lastUser) && reply.Some? {
          parts := parts + [ReplyPart(reply.value)];
          shown := shown + [requests[i].invocation];
        }
      }
      assert requests[..|requests|] == requests;
      var lines := Lines(rows, capture.pending);
      if lines.Err? {
        return Err(lines.error);
      }
      parts := parts + lines.value;
      return Ok(capture.(replies := shown, conversation := RenderParts(parts)));
    }
  }

  // An early return reports what the whole fold would report.

  /** Marking has not touched the dependencies that decide whether item t may be taken, and extends to item t. */
  lemma IncludedSoFar(m: Model, request: Request, t: nat, index: nat, rows: seq<Row>, included: seq<nat>)
    requires t < |request.items| && index < |m.rows| && rows == MarkTaken(m.rows, request.items[..t], request.invocation)
    requires m.rows[index].selected == request.items[t] && LatestIndex(m.rows, request.items[t].id) == Some(index)
    requires included == Ids(Flat(m.requests)) + Ids(request.items)[..t]
    ensures index < |rows| && (ItemDepsIncluded(m, request.items, t) <==> forall d | d in rows[index].dependencies :: d in included)
    ensures rows[index := rows[index].(state := Incorporated, invocation := Some(request.invocation))]
            == MarkTaken(m.rows, request.items[..t + 1], request.invocation)
    ensures included + [request.items[t].id] == Ids(Flat(m.requests)) + Ids(request.items)[..t + 1]
  {
  }

  lemma {:induction false} ErrorIsFirst(rows: seq<Row>, items: seq<Selection>, t: nat)
    requires t <= |items| && FirstItemError(rows, items[..t]).Some?
    ensures FirstItemError(rows, items) == FirstItemError(rows, items[..t])
  {
    if t == |items| {
      assert items[..t] == items;
    } else {
      assert Init(items)[..t] == items[..t];
      ErrorIsFirst(rows, Init(items), t);
    }
  }

  lemma {:induction false} PickFails(m: Model, k: nat, n: nat)
    requires k <= n <= |m.order| && Pick(m, k).Err?
    ensures Pick(m, n) == Pick(m, k)
  {
    if k < n {
      PickFails(m, k, n - 1);
    }
  }

  lemma {:induction false} PartsFail(rows: seq<Row>, requests: seq<Request>, k: nat, replies: seq<Reply>, all: bool, last: nat)
    requires k <= |requests| && RequestParts(rows, requests[..k], replies, all, last).Err?
    ensures RequestParts(rows, requests, replies, all, last) == RequestParts(rows, requests[..k], replies, all, last)
  {
    if k == |requests| {
      assert requests[..k] == requests;
    } else {
      assert Init(requests)[..k] == requests[..k];
      PartsFail(rows, Init(requests), k, replies, all, last);
    }
  }
}
