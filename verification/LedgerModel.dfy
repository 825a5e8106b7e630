/**
  The accepted-input ledger: an append-only revision history, a pending order,
  numbered requests and a generation fence.  Every command is a guarded step
  from one ledger value to the next; a rejected command yields its error.
 */
module LedgerModel {
  import opened Common
  import opened Text

  datatype ControlError = InvalidInput | StaleRevision | IdempotencyConflict | Capacity | NotFound

  datatype Result<+T> = Ok(value: T) | Err(error: ControlError)

  /** One exact identity and revision, not a moving reference to the latest text. */
  datatype Selection = Selection(id: nat, revision: nat)

  datatype State = Queued | Held | Incorporated | Superseded | Withdrawn {
    predicate Pending() { Queued? || Held? }
  }

  datatype Row = Row(
    selected: Selection,
    author: nat,
    text: string,
    dependencies: seq<nat>,
    state: State,
    correction: Option<Selection>,
    invocation: Option<nat>)

  /** Digests are opaque: only their identity is ever recorded. */
  datatype Request = Request(invocation: nat, semanticDigest: nat, manifest: nat, items: seq<Selection>)

  datatype Model = Model(rows: seq<Row>, order: seq<nat>, requests: seq<Request>, generation: nat)

  datatype Command =
    | Enqueue(id: nat, text: string, dependencies: seq<nat>)
    | Edit(selected: Selection, text: string)
    | Hold(selected: Selection, held: bool)
    | Withdraw(selected: Selection)
    | Move(selected: Selection, before: Option<nat>)
    | Reorder(order: seq<nat>)
    | Correct(original: Selection, id: nat, text: string)
    | Incorporate(request: Request)

  const EMPTY := Model([], [], [], 0)

  // ----- commands as built by their constructors -----

  predicate ConstructorValid(command: Command) {
    match command
    case Enqueue(_, text, _) => ValidText(text)
    case Edit(selected, text) => selected.revision != 0 && ValidText(text)
    case Correct(original, _, text) => original.revision != 0 && ValidText(text)
    case Hold(selected, _) => selected.revision != 0
    case Withdraw(selected) => selected.revision != 0
    case Move(selected, _) => selected.revision != 0
    case Incorporate(request) => forall i | 0 <= i < |request.items| :: request.items[i].revision != 0
    case Reorder(_) => true
  }

  // ----- lookups -----

  /** The newest row of `id` among the first `k` rows. */
  function LatestBefore(rows: seq<Row>, k: nat, id: nat): (r: Option<nat>)
    requires k <= |rows|
    ensures r.None? ==> forall i :: 0 <= i < k ==> rows[i].selected.id != id
    ensures r.Some? ==> r.value < k && rows[r.value].selected.id == id
    ensures r.Some? ==> forall i :: r.value < i < k ==> rows[i].selected.id != id
  {
    if k == 0 then None
    else if rows[k - 1].selected.id == id then Some(k - 1)
    else LatestBefore(rows, k - 1, id)
  }

  function LatestIndex(rows: seq<Row>, id: nat): (r: Option<nat>) {
    LatestBefore(rows, |rows|, id)
  }

  function Latest(rows: seq<Row>, id: nat): Option<Row> {
    var k := LatestIndex(rows, id);
    if k.Some? then Some(rows[k.value]) else None
  }

  /** The position of the oldest row carrying exactly this selection. */
  function ExactIndex(rows: seq<Row>, selected: Selection): (r: Option<nat>)
    ensures r.None? ==> forall i :: 0 <= i < |rows| ==> rows[i].selected != selected
    ensures r.Some? ==> r.value < |rows| && rows[r.value].selected == selected
    ensures r.Some? ==> forall i :: 0 <= i < r.value ==> rows[i].selected != selected
  {
    if rows == [] then None
    else
      var earlier := ExactIndex(Init(rows), selected);
      if earlier.Some? then earlier
      else if Last(rows).selected == selected then Some(|rows| - 1)
      else None
  }

  function Exact(rows: seq<Row>, selected: Selection): Result<Row> {
    var k := ExactIndex(rows, selected);
    if k.Some? then Ok(rows[k.value]) else Err(StaleRevision)
  }

  /** The row a pending command addresses: newest revision, exactly selected, still pending. */
  function PendingIndex(rows: seq<Row>, selected: Selection): (r: Result<nat>)
    ensures r.Ok? ==> r.value < |rows| && rows[r.value].selected == selected && rows[r.value].state.Pending()
    ensures r.Ok? ==> LatestIndex(rows, selected.id) == Some(r.value)
  {
    match LatestIndex(rows, selected.id)
    case None => Err(NotFound)
    case Some(k) =>
      if rows[k].selected != selected then Err(StaleRevision)
      else if !rows[k].state.Pending() then Err(InvalidInput)
      else Ok(k)
  }

  /** Why a pending command is refused: unknown identity, not its newest revision, or no longer pending. */
  lemma PendingIndexErrors(rows: seq<Row>, selected: Selection)
    ensures PendingIndex(rows, selected) == Err(NotFound) <==> forall i :: 0 <= i < |rows| ==> rows[i].selected.id != selected.id
    ensures PendingIndex(rows, selected) == Err(StaleRevision) <==>
            exists i :: 0 <= i < |rows| && rows[i].selected.id == selected.id && rows[i].selected != selected
                        && forall j :: i < j < |rows| ==> rows[j].selected.id != selected.id
    ensures PendingIndex(rows, selected) == Err(InvalidInput) <==>
            exists i :: 0 <= i < |rows| && rows[i].selected == selected && !rows[i].state.Pending()
                        && forall j :: i < j < |rows| ==> rows[j].selected.id != selected.id
  {
    var k := LatestIndex(rows, selected.id);
    if k.Some? {
      assert rows[k.value].selected.id == selected.id;
    }
  }

  function Ids(items: seq<Selection>): (r: seq<nat>)
    ensures |r| == |items| && forall i :: 0 <= i < |r| ==> r[i] == items[i].id
  {
    seq(|items|, i requires 0 <= i < |items| => items[i].id)
  }

  /** Every incorporated selection, in request order. */
  function Flat(requests: seq<Request>): seq<Selection> {
    if requests == [] then [] else Flat(Init(requests)) + Last(requests).items
  }

  function Position(order: seq<nat>, id: nat): (r: Option<nat>)
    ensures r.None? <==> id !in order
    ensures r.Some? ==> r.value < |order| && order[r.value] == id && id !in order[..r.value]
  {
    if order == [] then None
    else
      var p := Position(Init(order), id);
      if p.Some? then
        assert order[..p.value] == Init(order)[..p.value];
        p
      else if Last(order) == id then Some(|order| - 1)
      else None
  }

  // ----- transitions -----

  function EnqueueRow(m: Model, id: nat, author: nat, text: string, dependencies: seq<nat>,
                      correction: Option<Selection>): Result<Model>
  {
    if LatestIndex(m.rows, id).Some? then Err(IdempotencyConflict)
    else if exists i | 0 <= i < |dependencies| ::
              dependencies[i] == id || LatestIndex(m.rows, dependencies[i]).None? || dependencies[i] in dependencies[..i]
    then Err(InvalidInput)
    else Ok(m.(rows := m.rows + [Row(Selection(id, 1), author, text, dependencies, Queued, correction, None)],
               order := m.order + [id]))
  }

  function EditRow(m: Model, author: nat, selected: Selection, text: string): Result<Model> {
    match PendingIndex(m.rows, selected)
    case Err(e) => Err(e)
    case Ok(k) =>
      var row := m.rows[k].(selected := Selection(selected.id, selected.revision + 1), author := author, text := text);
      Ok(m.(rows := m.rows[k := m.rows[k].(state := Superseded)] + [row]))
  }

  function SetState(rows: seq<Row>, k: nat, state: State): seq<Row>
    requires k < |rows|
  {
    rows[k := rows[k].(state := state)]
  }

  /** Some pending input's newest revision depends on `id`. */
  predicate HasPendingDependent(m: Model, id: nat) {
    exists i | 0 <= i < |m.order| ::
      Latest(m.rows, m.order[i]).Some? && id in Latest(m.rows, m.order[i]).value.dependencies
  }

  function MoveOrder(order: seq<nat>, id: nat, before: Option<nat>): Result<seq<nat>> {
    var rest := Drop(order, [id]);
    if before.None? then Ok(rest + [id])
    else
      match Position(rest, before.value)
      case None => Err(NotFound)
      case Some(p) => Ok(rest[..p] + [id] + rest[p..])
  }

  /** The error of the first item that is not an exact, pending and queued revision. */
  function FirstItemError(rows: seq<Row>, items: seq<Selection>): Option<ControlError> {
    if items == [] then None
    else
      var earlier := FirstItemError(rows, Init(items));
      if earlier.Some? then earlier
      else
        match PendingIndex(rows, Last(items))
        case Err(e) => Some(e)
        case Ok(k) => if rows[k].state != Queued then Some(InvalidInput) else None
  }

  /** Row k belongs to the request: it is the newest revision of its identity and is selected. */
  predicate Taken(rows: seq<Row>, items: seq<Selection>, k: nat)
    requires k < |rows|
  {
    rows[k].selected in items && LatestIndex(rows, rows[k].selected.id) == Some(k)
  }

  function MarkTaken(rows: seq<Row>, items: seq<Selection>, invocation: nat): (r: seq<Row>)
    ensures |r| == |rows|
  {
    seq(|rows|, k requires 0 <= k < |rows| =>
      if Taken(rows, items, k) then rows[k].(state := Incorporated, invocation := Some(invocation)) else rows[k])
  }

  /** Marking one more item of a request. */
  lemma MarkOneMore(rows: seq<Row>, items: seq<Selection>, t: nat, k: nat, invocation: nat)
    requires t < |items| && k < |rows|
    requires rows[k].selected == items[t] && LatestIndex(rows, items[t].id) == Some(k)
    ensures var done := MarkTaken(rows, items[..t], invocation);
            MarkTaken(rows, items[..t + 1], invocation)
            == done[k := done[k].(state := Incorporated, invocation := Some(invocation))]
  {
  }

  /** Item t may be taken: each dependency was incorporated before, or comes earlier in this request. */
  predicate ItemDepsIncluded(m: Model, items: seq<Selection>, t: nat)
    requires t < |items|
  {
    var row := Latest(m.rows, items[t].id);
    row.Some? && forall d | d in row.value.dependencies :: d in Ids(Flat(m.requests)) || d in Ids(items)[..t]
  }

  function IncorporateRequest(m: Model, request: Request): Result<Model> {
    var items := request.items;
    if exists i | 0 <= i < |m.requests| :: m.requests[i].invocation == request.invocation then Err(IdempotencyConflict)
    else if Keep(m.order, Ids(items)) != Ids(items) then Err(InvalidInput)
    else if FirstItemError(m.rows, items).Some? then Err(FirstItemError(m.rows, items).value)
    else if exists t | 0 <= t < |items| :: !ItemDepsIncluded(m, items, t) then Err(InvalidInput)
    else Ok(m.(rows := MarkTaken(m.rows, items, request.invocation),
               order := Drop(m.order, Ids(items)),
               requests := m.requests + [request]))
  }

  function Mutate(m: Model, command: Command, author: nat): Result<Model> {
    match command
    case Enqueue(id, text, dependencies) => EnqueueRow(m, id, author, text, dependencies, None)
    case Edit(selected, text) => EditRow(m, author, selected, text)
    case Hold(selected, held) =>
      (match PendingIndex(m.rows, selected)
       case Err(e) => Err(e)
       case Ok(k) => Ok(m.(rows := SetState(m.rows, k, if held then Held else Queued))))
    case Withdraw(selected) =>
      if HasPendingDependent(m, selected.id) then Err(InvalidInput)
      else
        (match PendingIndex(m.rows, selected)
         case Err(e) => Err(e)
         case Ok(k) => Ok(m.(rows := SetState(m.rows, k, Withdrawn), order := Drop(m.order, [selected.id]))))
    case Move(selected, before) =>
      (match PendingIndex(m.rows, selected)
       case Err(e) => Err(e)
       case Ok(_) =>
         if before == Some(selected.id) then Err(InvalidInput)
         else
           match MoveOrder(m.order, selected.id, before)
           case Err(e) => Err(e)
           case Ok(order) => Ok(m.(order := order)))
    case Reorder(order) =>
      if |order| != |m.order| || exists i | 0 <= i < |m.order| :: m.order[i] !in order then Err(InvalidInput)
      else Ok(m.(order := order))
    case Correct(original, id, text) =>
      (match Exact(m.rows, original)
       case Err(e) => Err(e)
       case Ok(row) =>
         if row.state != Incorporated then Err(InvalidInput)
         else EnqueueRow(m, id, author, text, [original.id], Some(original)))
    case Incorporate(request) => IncorporateRequest(m, request)
  }

  /** A dependency is met at position i when it is incorporated or ordered before i. */
  predicate DepMet(m: Model, i: nat, d: nat)
    requires i <= |m.order|
  {
    var prior := Latest(m.rows, d);
    prior.Some? && (prior.value.state == Incorporated || d in m.order[..i])
  }

  predicate PositionValid(m: Model, i: nat)
    requires i < |m.order|
  {
    var row := Latest(m.rows, m.order[i]);
    row.Some? && forall d | d in row.value.dependencies :: DepMet(m, i, d)
  }

  predicate OrderValid(m: Model) {
    forall i | 0 <= i < |m.order| :: PositionValid(m, i)
  }

  function Advance(m: Model, command: Command): Model {
    if command.Incorporate? then m else m.(generation := m.generation + 1)
  }

  predicate Admissible(m: Model) {
    OrderValid(m) && (m.generation != 0 || (m.rows == [] && m.requests == []))
  }

  function Apply(m: Model, command: Command, author: nat): Result<Model> {
    if !ConstructorValid(command) then Err(InvalidInput)
    else
      match Mutate(m, command, author)
      case Err(e) => Err(e)
      case Ok(next) =>
        var n := Advance(next, command);
        if Admissible(n) then Ok(n) else Err(InvalidInput)
  }

  // ----- captures -----

  datatype Capture = Capture(generation: nat, pending: seq<Selection>, included: seq<Selection>,
                             replies: seq<nat>, conversation: string)

  /** The greedy pass over the first k pending identities. */
  function Pick(m: Model, k: nat): Result<seq<Selection>>
    requires k <= |m.order|
  {
    if k == 0 then Ok([])
    else
      var earlier := Pick(m, k - 1);
      var row := Latest(m.rows, m.order[k - 1]);
      if earlier.Err? then earlier
      else if row.None? then Err(InvalidInput)
      else if row.value.state == Queued
              && forall d | d in row.value.dependencies :: d in Ids(Flat(m.requests) + earlier.value)
      then Ok(earlier.value + [row.value.selected])
      else earlier
  }

  function UserLine(row: Row): string {
    "User: " + row.text
  }

  function Lines(rows: seq<Row>, items: seq<Selection>): Result<seq<string>> {
    if items == [] then Ok([])
    else
      var earlier := Lines(rows, Init(items));
      var row := Exact(rows, Last(items));
      if earlier.Err? then earlier
      else if row.Err? then Err(row.error)
      else Ok(earlier.value + [UserLine(row.value)])
  }

  function Join(parts: seq<string>): string {
    if parts == [] then []
    else if |parts| == 1 then parts[0]
    else Join(Init(parts)) + "\n\n" + Last(parts)
  }

  function CaptureView(m: Model, pending: bool, max: nat): Result<Capture> {
    var picked := if pending then Pick(m, |m.order|) else Ok([]);
    if picked.Err? then Err(picked.error)
    else
      var included := Flat(m.requests) + picked.value;
      var lines := Lines(m.rows, included);
      if lines.Err? then Err(lines.error)
      else if ByteLen(Join(lines.value)) > max then Err(Capacity)
      else Ok(Capture(m.generation, picked.value, included, [], Join(lines.value)))
  }

  // ----- captures with public replies -----

  /** One entry of the sorted reply map. */
  datatype Reply = Reply(invocation: nat, text: string)

  predicate SortedReplies(replies: seq<Reply>) {
    forall i, j | 0 <= i < j < |replies| :: replies[i].invocation < replies[j].invocation
  }

  function FindReply(replies: seq<Reply>, invocation: nat): Option<string> {
    if replies == [] then None
    else if Last(replies).invocation == invocation then Some(Last(replies).text)
    else FindReply(Init(replies), invocation)
  }

  /** Every reply is charged its bytes and 32 more, whether or not it is shown. */
  function Charge(replies: seq<Reply>): nat {
    if replies == [] then 0 else Charge(Init(replies)) + ByteLen(Last(replies).text) + 32
  }

  /** The last request that listed any input, or 0. */
  function LastUser(requests: seq<Request>): (r: nat)
    ensures r <= |requests|
  {
    if requests == [] then 0
    else if Last(requests).items != [] then |requests| - 1
    else LastUser(Init(requests))
  }

  const REPLY_MARK := "Peritus (public reply):"

  function ReplyPart(text: string): string {
    REPLY_MARK + " " + text
  }

  datatype Parts = Parts(texts: seq<string>, shown: seq<nat>)

  /** The parts contributed by the requests: their inputs, then the reply when it is shown. */
  function RequestParts(rows: seq<Row>, requests: seq<Request>, replies: seq<Reply>, all: bool, lastUser: nat)
    : Result<Parts>
  {
    if requests == [] then Ok(Parts([], []))
    else
      var earlier := RequestParts(rows, Init(requests), replies, all, lastUser);
      var request := Last(requests);
      var lines := Lines(rows, request.items);
      var reply := FindReply(replies, request.invocation);
      if earlier.Err? then earlier
      else if lines.Err? then Err(lines.error)
      else if (all || |requests| - 1 < lastUser) && reply.Some? then
        Ok(Parts(earlier.value.texts + lines.value + [ReplyPart(reply.value)],
                 earlier.value.shown + [request.invocation]))
      else Ok(Parts(earlier.value.texts + lines.value, earlier.value.shown))
  }

  function RenderParts(texts: seq<string>): string {
    if texts != [] && REPLY_MARK <= texts[0] then "\n\n" + Join(texts) else Join(texts)
  }

  /** Some request has this invocation. */
  predicate Named(requests: seq<Request>, invocation: nat) {
    exists j | 0 <= j < |requests| :: requests[j].invocation == invocation
  }

  function CaptureReplies(m: Model, replies: seq<Reply>, pending: bool, max: nat): Result<Capture> {
    var capture := CaptureView(m, pending, max);
    if capture.Err? then capture
    else if Charge(replies) + ByteLen(capture.value.conversation) > max then Err(Capacity)
    else if exists i | 0 <= i < |replies| :: !Named(m.requests, replies[i].invocation) then Err(InvalidInput)
    else
      var parts := RequestParts(m.rows, m.requests, replies, capture.value.pending != [], LastUser(m.requests));
      var lines := Lines(m.rows, capture.value.pending);
      if parts.Err? then Err(parts.error)
      else if lines.Err? then Err(lines.error)
      else Ok(capture.value.(replies := parts.value.shown,
                             conversation := RenderParts(parts.value.texts + lines.value)))
  }

  // ----- runs: rejected commands leave the ledger as it was -----

  datatype Step = Step(command: Command, author: nat)

  function Next(m: Model, step: Step): Model {
    match Apply(m, step.command, step.author)
    case Ok(n) => n
    case Err(_) => m
  }

  function RunFrom(start: Model, steps: seq<Step>): Model {
    if steps == [] then start else Next(RunFrom(start, Init(steps)), Last(steps))
  }

  /** The last step of a prefix of a run. */
  lemma RunStep(start: Model, steps: seq<Step>, j: nat)
    requires 0 < j <= |steps|
    ensures RunFrom(start, steps[..j]) == Next(RunFrom(start, steps[..j - 1]), steps[j - 1])
  {
    assert Init(steps[..j]) == steps[..j - 1];
  }
}
