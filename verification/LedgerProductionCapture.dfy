/**
  The production captures (`control/inputs/capture.rs`), which append line by
  line under a running size check, against the model's render-then-measure.
 */
module LedgerProductionCapture {
  import opened Common
  import opened Text
  import opened LedgerModel
  import opened LedgerInvariant
  import opened LedgerCapture
  import opened LedgerReplies
  import opened LedgerProduction
  import opened LedgerDecoded

  function AppendLine(conversation: string, text: string, max: nat): Result<string> {
    if ByteLen(conversation) + ByteLen(text) + (if conversation == [] then 0 else 2) + 6 > max then Err(Capacity)
    else Ok((if conversation == [] then [] else conversation + "\n\n") + "User: " + text)
  }

  /** Appends the newest text of each item in turn. */
  function AppendItems(rows: seq<Row>, items: seq<Selection>, start: string, max: nat): Result<string> {
    if items == [] then Ok(start)
    else
      var earlier := AppendItems(rows, Init(items), start, max);
      var row := Latest(rows, Last(items).id);
      if earlier.Err? then earlier
      else if row.None? then Err(InvalidInput)
      else AppendLine(earlier.value, row.value.text, max)
  }

  datatype Growing = Growing(pending: seq<Selection>, conversation: string)

  /** The pass over the first k pending identities, growing selection and text together. */
  function ProdPick(m: Model, k: nat, start: string, max: nat): Result<Growing>
    requires k <= |m.order|
  {
    if k == 0 then Ok(Growing([], start))
    else
      var earlier := ProdPick(m, k - 1, start, max);
      var row := Latest(m.rows, m.order[k - 1]);
      if earlier.Err? then earlier
      else if row.None? then Err(InvalidInput)
      else if row.value.state == Queued
              && forall d | d in row.value.dependencies :: d in Ids(Flat(m.requests) + earlier.value.pending)
      then
        match AppendLine(earlier.value.conversation, row.value.text, max)
        case Err(e) => Err(e)
        case Ok(text) => Ok(Growing(earlier.value.pending + [row.value.selected], text))
      else earlier
  }

  function ProdCapture(m: Model, pending: bool, max: nat): Result<Capture> {
    if ValidateError(m).Some? then Err(ValidateError(m).value)
    else
      var start := AppendItems(m.rows, Flat(m.requests), [], max);
      if start.Err? then Err(start.error)
      else
        match ProdPick(m, if pending then |m.order| else 0, start.value, max)
        case Err(e) => Err(e)
        case Ok(g) => Ok(Capture(m.generation, g.pending, Flat(m.requests) + g.pending, [], g.conversation))
  }

  // ----- rendering one part at a time -----

  ghost predicate Solid(texts: seq<string>) {
    forall i :: 0 <= i < |texts| ==> texts[i] != []
  }

  lemma RenderAppend(texts: seq<string>, part: string)
    requires Solid(texts) && part != []
    ensures RenderParts(texts + [part]) ==
            if texts == [] then (if REPLY_MARK <= part then "\n\n" + part else part)
            else RenderParts(texts) + "\n\n" + part
    ensures RenderParts(texts) == [] <==> texts == []
  {
    JoinAppend(texts, part);
    hide Join, Solid;
    if texts != [] {
      assert (texts + [part])[0] == texts[0];
      assert "\n\n" + (Join(texts) + "\n\n" + part) == ("\n\n" + Join(texts)) + "\n\n" + part;
    }
  }

  lemma JoinAppend(texts: seq<string>, part: string)
    requires Solid(texts)
    ensures Join([]) == [] && Join(texts + [part]) == if texts == [] then part else Join(texts) + "\n\n" + part
    ensures texts != [] ==> Join(texts) != []
  {
    assert Init(texts + [part]) == texts;
    if texts != [] {
      assert Last(texts) != [];
    }
  }

  lemma UserLineStarts(row: Row)
    ensures UserLine(row) != [] && !(REPLY_MARK <= UserLine(row)) && ByteLen(UserLine(row)) == ByteLen(row.text) + 6
  {
    hide Utf8, ByteLen;
    assert UserLine(row)[0] == 'U' && REPLY_MARK[0] == 'P';
    ByteLenConcat("User: ", row.text);
    UserPrefixLength();
  }

  lemma UserPrefixLength()
    ensures ByteLen("User: ") == 6
  {
    hide Utf8, ByteLen;
    var prefix := ['U', 's', 'e', 'r', ':', ' '];
    assert prefix == "User: ";
    ByteLenAscii(prefix);
  }

  /** Appending a user line renders one more part, and its size check measures the result. */
  lemma AppendRenders(texts: seq<string>, row: Row, max: nat)
    requires Solid(texts)
    ensures AppendLine(RenderParts(texts), row.text, max) ==
            if ByteLen(RenderParts(texts + [UserLine(row)])) > max then Err(Capacity)
            else Ok(RenderParts(texts + [UserLine(row)]))
    ensures ByteLen(RenderParts(texts)) <= ByteLen(RenderParts(texts + [UserLine(row)]))
  {
    hide RenderParts, ByteLen, UserLine;
    UserLineStarts(row);
    RenderAppend(texts, UserLine(row));
    AppendLineMeasures(RenderParts(texts), row, max);
  }

  lemma AppendLineMeasures(conversation: string, row: Row, max: nat)
    ensures var text := if conversation == [] then UserLine(row) else conversation + "\n\n" + UserLine(row);
            && AppendLine(conversation, row.text, max) == (if ByteLen(text) > max then Err(Capacity) else Ok(text))
            && ByteLen(conversation) <= ByteLen(text)
  {
    hide Utf8;
    var line := UserLine(row);
    UserLineStarts(row);
    ByteLenConcat(conversation + "\n\n", line);
    ByteLenConcat(conversation, "\n\n");
    ByteLenAscii("\n\n");
    if conversation == [] {
      assert [] + "User: " + row.text == line;
    } else {
      assert conversation + "\n\n" + line == conversation + "\n\n" + "User: " + row.text;
    }
  }

  ghost predicate NewestItems(rows: seq<Row>, items: seq<Selection>) {
    forall s | s in items :: Exact(rows, s).Ok? && Latest(rows, s.id) == Some(Exact(rows, s).value)
  }

  /** Appending items under the running check renders them all, or fails exactly when the whole is too long. */
  lemma {:induction false} AppendItemsRenders(rows: seq<Row>, items: seq<Selection>, texts: seq<string>, max: nat)
    requires Solid(texts) && NewestItems(rows, items) && ByteLen(RenderParts(texts)) <= max
    ensures Lines(rows, items).Ok? && Solid(texts + Lines(rows, items).value)
    ensures var all := RenderParts(texts + Lines(rows, items).value);
            AppendItems(rows, items, RenderParts(texts), max) == (if ByteLen(all) > max then Err(Capacity) else Ok(all))
            && ByteLen(RenderParts(texts)) <= ByteLen(all)
  {
    hide Utf8, Utf8Len;
    if items == [] {
      assert texts + [] == texts;
    } else {
      AppendItemsRenders(rows, Init(items), texts, max);
      var front := texts + Lines(rows, Init(items)).value;
      var row := Exact(rows, Last(items)).value;
      AppendRenders(front, row, max);
      UserLineStarts(row);
      assert texts + Lines(rows, items).value == front + [UserLine(row)];
    }
  }

  lemma PlainRender(rows: seq<Row>, items: seq<Selection>)
    requires Lines(rows, items).Ok?
    ensures RenderParts(Lines(rows, items).value) == Join(Lines(rows, items).value)
  {
    if Lines(rows, items).value != [] {
      LinesAreUserLines(rows, items);
    }
  }

  /** The combined pass is the greedy selection followed by appending what was selected. */
  lemma {:induction false} ProdPickIs(m: Model, k: nat, start: string, max: nat)
    requires k <= |m.order| && Pick(m, k).Ok?
    requires AppendItems(m.rows, Flat(m.requests), [], max) == Ok(start)
    ensures var picked := Pick(m, k).value;
            ProdPick(m, k, start, max) ==
            match AppendItems(m.rows, Flat(m.requests) + picked, [], max)
            case Err(e) => Err(e)
            case Ok(text) => Ok(Growing(picked, text))
  {
    hide Flat, AppendLine, AppendItems;
    if k == 0 {
      assert Flat(m.requests) + [] == Flat(m.requests);
    } else {
      ProdPickIs(m, k - 1, start, max);
      var before, after := Pick(m, k - 1).value, Pick(m, k).value;
      if after != before {
        AppendOneMore(m.rows, Flat(m.requests), before, Last(after), max);
        assert after == before + [Last(after)];
      }
    }
  }

  lemma AppendOneMore(rows: seq<Row>, flat: seq<Selection>, before: seq<Selection>, s: Selection, max: nat)
    ensures var earlier := AppendItems(rows, flat + before, [], max);
            AppendItems(rows, flat + (before + [s]), [], max) ==
            if earlier.Err? then earlier
            else if Latest(rows, s.id).None? then Err(InvalidInput)
            else AppendLine(earlier.value, Latest(rows, s.id).value.text, max)
  {
    hide AppendLine, Latest;
    var all := flat + (before + [s]);
    assert Init(all) == flat + before && Last(all) == s;
  }

  lemma NewestView(m: Model)
    requires Inv(m)
    ensures NewestItems(m.rows, Flat(m.requests) + Picked(m)) && NewestItems(m.rows, Flat(m.requests))
    ensures NewestItems(m.rows, Picked(m))
  {
    forall s | s in Flat(m.requests) + Picked(m)
      ensures Exact(m.rows, s).Ok? && Latest(m.rows, s.id) == Some(Exact(m.rows, s).value)
    {
      ViewRows(m, s);
    }
  }

  lemma AppendView(rows: seq<Row>, items: seq<Selection>, max: nat)
    requires NewestItems(rows, items)
    ensures Lines(rows, items).Ok?
    ensures var text := Join(Lines(rows, items).value);
            AppendItems(rows, items, [], max) == if ByteLen(text) > max then Err(Capacity) else Ok(text)
  {
    AppendItemsRenders(rows, items, [], max);
    assert [] + Lines(rows, items).value == Lines(rows, items).value;
    PlainRender(rows, items);
  }

  /** Appending more only grows the text, so the running check fails exactly when the final one would. */
  lemma AppendViewGrows(rows: seq<Row>, a: seq<Selection>, b: seq<Selection>)
    requires NewestItems(rows, a + b)
    ensures Lines(rows, a).Ok? && Lines(rows, a + b).Ok?
    ensures ByteLen(Join(Lines(rows, a).value)) <= ByteLen(Join(Lines(rows, a + b).value))
  {
    assert forall s | s in a :: s in a + b;
    assert forall s | s in b :: s in a + b;
    AppendView(rows, a + b, 0);
    LinesConcat(rows, a, b);
    var texts := Lines(rows, a).value;
    JoinWeight(texts);
    JoinWeight(Lines(rows, a + b).value);
    WeightConcat(texts, Lines(rows, b).value);
  }

  lemma ProductionCaptureAgrees(m: Model, pending: bool, max: nat)
    requires Inv(m) && Sized(m)
    ensures ProdCapture(m, pending, max) == CaptureView(m, pending, max)
  {
    assert ValidateError(m).None? by { ValidateIsClosingCheck(m); }
    NewestView(m);
    PickSucceeds(m, |m.order|);
    CaptureAgreesFrom(m, pending, max);
  }

  lemma CaptureAgreesFrom(m: Model, pending: bool, max: nat)
    requires ValidateError(m).None? && Pick(m, |m.order|).Ok?
    requires NewestItems(m.rows, Flat(m.requests) + Picked(m)) && NewestItems(m.rows, Flat(m.requests))
    ensures ProdCapture(m, pending, max) == CaptureView(m, pending, max)
  {
    var flat := Flat(m.requests);
    var k := if pending then |m.order| else 0;
    var picked := Pick(m, k).value;
    assert flat + [] == flat;
    AppendView(m.rows, flat, max);
    AppendView(m.rows, flat + picked, max);
    AppendViewGrows(m.rows, flat, picked);
    var start := AppendItems(m.rows, flat, [], max);
    if start.Ok? {
      ProdPickIs(m, k, start.value, max);
    }
  }

  // ----- captures with replies -----

  datatype Shown = Shown(conversation: string, replies: seq<nat>)

  function ProdRequests(rows: seq<Row>, requests: seq<Request>, replies: seq<Reply>, overlay: Overlay, through: nat, max: nat)
    : Result<Shown>
  {
    if requests == [] then Ok(Shown([], []))
    else
      var earlier := ProdRequests(rows, Init(requests), replies, overlay, through, max);
      var request := Last(requests);
      if earlier.Err? then earlier
      else
        var text := AppendItems(rows, request.items, earlier.value.conversation, max);
        var reply := ShownText(replies, overlay, through, |requests| - 1, request.invocation);
        if text.Err? then Err(text.error)
        else if reply.Some? then
          Ok(Shown(text.value + "\n\n" + ReplyPart(reply.value), earlier.value.replies + [request.invocation]))
        else Ok(Shown(text.value, earlier.value.replies))
  }

  /** Replies name requests; pinned ones were supplied and are not excluded. */
  predicate ViewNamed(m: Model, replies: seq<Reply>, overlay: Overlay) {
    && RepliesNamed(m, replies)
    && (forall v | v in overlay.pinned :: FindReply(replies, v).Some?)
    && overlay.pinned !! overlay.excluded
  }

  /** Each reply answers some request, and each pinned invocation was given a reply and is not excluded. */
  ghost predicate OverlayFits(requests: seq<Request>, replies: seq<Reply>, overlay: Overlay) {
    && AllAnswer(requests, replies)
    && forall v | v in overlay.pinned ::
         v !in overlay.excluded && exists k :: 0 <= k < |replies| && replies[k].invocation == v
  }

  lemma ViewNamedIsFit(m: Model, replies: seq<Reply>, overlay: Overlay)
    ensures ViewNamed(m, replies, overlay) <==> OverlayFits(m.requests, replies, overlay)
  {
    hide FindReply;
    forall v ensures FindReply(replies, v).Some? <==> exists i :: 0 <= i < |replies| && replies[i].invocation == v {
      FindReplyExact(replies, v);
    }
    AllNamed(m, replies);
    assert overlay.pinned !! overlay.excluded <==> forall v | v in overlay.pinned :: v !in overlay.excluded;
  }

  function ProdReplyView(m: Model, replies: seq<Reply>, pending: bool, overlay: Overlay, max: nat): Result<Capture> {
    var capture := ProdCapture(m, pending, max);
    if capture.Err? then capture
    else if Charge(replies) + ByteLen(capture.value.conversation) > max then Err(Capacity)
    else if !ViewNamed(m, replies, overlay) then Err(InvalidInput)
    else
      var shown := ProdRequests(m.rows, m.requests, replies, overlay, Through(m.requests, capture.value.pending != []), max);
      if shown.Err? then Err(shown.error)
      else
        match AppendItems(m.rows, capture.value.pending, shown.value.conversation, max)
        case Err(e) => Err(e)
        case Ok(text) => Ok(capture.value.(replies := shown.value.replies, conversation := text))
  }

  function ProdCaptureReplies(m: Model, replies: seq<Reply>, pending: bool, max: nat): Result<Capture> {
    ProdReplyView(m, replies, pending, PLAIN, max)
  }

  lemma RenderGrows(texts: seq<string>, more: seq<string>)
    ensures ByteLen(RenderParts(texts)) <= ByteLen(RenderParts(texts + more))
  {
    hide Utf8;
    var all := texts + more;
    JoinWeight(texts);
    JoinWeight(all);
    WeightConcat(texts, more);
    ByteLenConcat("\n\n", Join(texts));
    ByteLenConcat("\n\n", Join(all));
    assert texts != [] ==> all[0] == texts[0];
  }

  /** One more request: its inputs are appended, then the reply when it is shown. */
  lemma RequestRenders(rows: seq<Row>, items: seq<Selection>, texts: seq<string>, reply: Option<string>, max: nat)
    requires Solid(texts) && NewestItems(rows, items) && Lines(rows, items).Ok?
    requires var front := texts + Lines(rows, items).value;
             ByteLen(RenderParts(if reply.Some? then front + [ReplyPart(reply.value)] else front)) <= max
    ensures var front := texts + Lines(rows, items).value;
            && Solid(front)
            && AppendItems(rows, items, RenderParts(texts), max) == Ok(RenderParts(front))
            && (reply.Some? ==>
                  Solid(front + [ReplyPart(reply.value)])
                  && RenderParts(front) + "\n\n" + ReplyPart(reply.value) ==
                     RenderParts(front + [ReplyPart(reply.value)]))
  {
    hide ReplyPart, ByteLen, Lines, AppendItems, NewestItems, RenderParts, Solid;
    var front := texts + Lines(rows, items).value;
    RenderGrows(texts, Lines(rows, items).value);
    if reply.Some? {
      RenderGrows(front, [ReplyPart(reply.value)]);
    }
    AppendItemsRenders(rows, items, texts, max);
    if reply.Some? {
      ReplyAppends(front, reply.value);
    }
  }

  lemma ReplyAppends(front: seq<string>, text: string)
    requires Solid(front)
    ensures Solid(front + [ReplyPart(text)])
    ensures RenderParts(front) + "\n\n" + ReplyPart(text) == RenderParts(front + [ReplyPart(text)])
  {
    hide RenderParts, ReplyPart;
    var part := ReplyPart(text);
    ReplyPartMarked(text);
    RenderAppend(front, part);
    assert [] + "\n\n" + part == "\n\n" + part;
  }

  lemma ReplyPartMarked(text: string)
    ensures REPLY_MARK <= ReplyPart(text) && ReplyPart(text) != []
  {
  }

  lemma PartsUnfold(rows: seq<Row>, requests: seq<Request>, replies: seq<Reply>, overlay: Overlay, through: nat)
    requires requests != [] && ViewParts(rows, requests, replies, overlay, through).Ok?
    ensures ViewParts(rows, Init(requests), replies, overlay, through).Ok? && Lines(rows, Last(requests).items).Ok?
    ensures var earlier := ViewParts(rows, Init(requests), replies, overlay, through).value;
            var parts := ViewParts(rows, requests, replies, overlay, through).value;
            var texts := earlier.texts + Lines(rows, Last(requests).items).value;
            var v := Last(requests).invocation;
            var reply := ShownText(replies, overlay, through, |Init(requests)|, v);
            && parts == (if reply.Some? then Parts(texts + [ReplyPart(reply.value)], earlier.shown + [v])
                         else Parts(texts, earlier.shown))
            && parts.texts == earlier.texts + parts.texts[|earlier.texts|..]
  {
    hide ReplyPart, Lines, ShownText;
  }

  lemma NewestSplit(rows: seq<Row>, requests: seq<Request>)
    requires requests != [] && NewestItems(rows, Flat(requests))
    ensures NewestItems(rows, Flat(Init(requests))) && NewestItems(rows, Last(requests).items)
  {
    hide Exact, Latest;
  }

  /** Appending request by request renders the parts of the view, when the whole fits. */
  lemma {:induction false} RequestsRender(rows: seq<Row>, requests: seq<Request>, replies: seq<Reply>, overlay: Overlay,
                                          through: nat, max: nat)
    requires NewestItems(rows, Flat(requests)) && ViewParts(rows, requests, replies, overlay, through).Ok?
    requires ByteLen(RenderParts(ViewParts(rows, requests, replies, overlay, through).value.texts)) <= max
    ensures var parts := ViewParts(rows, requests, replies, overlay, through).value;
            Solid(parts.texts)
            && ProdRequests(rows, requests, replies, overlay, through, max) == Ok(Shown(RenderParts(parts.texts), parts.shown))
  {
    hide RenderParts, ByteLen, AppendItems, ShownText, Lines, Solid, Flat, NewestItems, ReplyPart, ViewParts;
    if requests == [] {
      NoParts(rows, replies, overlay, through);
    } else {
      var request, front := Last(requests), Init(requests);
      PartsUnfold(rows, requests, replies, overlay, through);
      NewestSplit(rows, requests);
      var earlier := ViewParts(rows, front, replies, overlay, through).value;
      var parts := ViewParts(rows, requests, replies, overlay, through).value;
      RenderGrows(earlier.texts, parts.texts[|earlier.texts|..]);
      RequestsRender(rows, front, replies, overlay, through, max);
      RequestRenders(rows, request.items, earlier.texts, ShownText(replies, overlay, through, |front|, request.invocation), max);
    }
  }

  lemma NoParts(rows: seq<Row>, replies: seq<Reply>, overlay: Overlay, through: nat)
    ensures ViewParts(rows, [], replies, overlay, through) == Ok(Parts([], [])) && RenderParts([]) == [] && Solid([])
  {
  }

  /** The view once its parts are known to fit: what is rendered is exactly those parts. */
  lemma ViewRenders(m: Model, replies: seq<Reply>, picked: seq<Selection>, overlay: Overlay, max: nat)
    requires NewestItems(m.rows, Flat(m.requests)) && NewestItems(m.rows, picked) && Lines(m.rows, picked).Ok?
    requires var through := Through(m.requests, picked != []);
             && ViewParts(m.rows, m.requests, replies, overlay, through).Ok?
             && ByteLen(RenderParts(ViewParts(m.rows, m.requests, replies, overlay, through).value.texts
                                    + Lines(m.rows, picked).value)) <= max
    ensures var through := Through(m.requests, picked != []);
            var parts := ViewParts(m.rows, m.requests, replies, overlay, through).value;
            && ProdRequests(m.rows, m.requests, replies, overlay, through, max)
               == Ok(Shown(RenderParts(parts.texts), parts.shown))
            && AppendItems(m.rows, picked, RenderParts(parts.texts), max)
               == Ok(RenderParts(parts.texts + Lines(m.rows, picked).value))
  {
    hide RenderParts, ByteLen, AppendItems, ShownText, Lines, Solid, Flat, NewestItems, ViewParts, ProdRequests, Through;
    var through := Through(m.requests, picked != []);
    var parts := ViewParts(m.rows, m.requests, replies, overlay, through).value;
    RenderGrows(parts.texts, Lines(m.rows, picked).value);
    RequestsRender(m.rows, m.requests, replies, overlay, through, max);
    AppendItemsRenders(m.rows, picked, parts.texts, max);
  }

  /** The whole view: the measured capture, then the parts of the overlay when charge and names pass. */
  lemma ReplyViewIs(m: Model, replies: seq<Reply>, pending: bool, overlay: Overlay, max: nat)
    requires Inv(m) && Sized(m) && SortedReplies(replies) && Shortening(replies, overlay)
    ensures var capture := CaptureView(m, pending, max);
            ProdReplyView(m, replies, pending, overlay, max) ==
            if capture.Err? then capture
            else if Charge(replies) + ByteLen(capture.value.conversation) > max then Err(Capacity)
            else if !ViewNamed(m, replies, overlay) then Err(InvalidInput)
            else ShownView(m, replies, overlay, capture.value)
  {
    assert DistinctInvocations(m.requests);
    hide Inv, Sized, CaptureView, ProdCapture, ViewNamed, Charge, ByteLen, DistinctInvocations, SortedReplies, Shortening,
      ShownView, ProdReplyView;
    ProductionCaptureAgrees(m, pending, max);
    if CaptureView(m, pending, max).Ok?
       && Charge(replies) + ByteLen(CaptureView(m, pending, max).value.conversation) <= max
    {
      CapturedLines(m, pending, max);
      FittingView(m, replies, overlay, CaptureView(m, pending, max).value, max);
    }
    ReplyViewUnfold(m, replies, pending, overlay, max);
  }

  /** A captured view with the parts that an overlay shows in place of its plain text. */
  function ShownView(m: Model, replies: seq<Reply>, overlay: Overlay, capture: Capture): Result<Capture> {
    var parts := ViewParts(m.rows, m.requests, replies, overlay, Through(m.requests, capture.pending != []));
    var lines := Lines(m.rows, capture.pending);
    if parts.Err? then Err(parts.error)
    else if lines.Err? then Err(lines.error)
    else Ok(capture.(replies := parts.value.shown, conversation := RenderParts(parts.value.texts + lines.value)))
  }

  /** What the loops of the view produce from a capture. */
  function AppendedView(m: Model, replies: seq<Reply>, overlay: Overlay, capture: Capture, max: nat): Result<Capture> {
    var shown := ProdRequests(m.rows, m.requests, replies, overlay, Through(m.requests, capture.pending != []), max);
    if shown.Err? then Err(shown.error)
    else
      match AppendItems(m.rows, capture.pending, shown.value.conversation, max)
      case Err(e) => Err(e)
      case Ok(text) => Ok(capture.(replies := shown.value.replies, conversation := text))
  }

  lemma ReplyViewUnfold(m: Model, replies: seq<Reply>, pending: bool, overlay: Overlay, max: nat)
    ensures var capture := ProdCapture(m, pending, max);
            ProdReplyView(m, replies, pending, overlay, max) ==
            if capture.Err? then capture
            else if Charge(replies) + ByteLen(capture.value.conversation) > max then Err(Capacity)
            else if !ViewNamed(m, replies, overlay) then Err(InvalidInput)
            else AppendedView(m, replies, overlay, capture.value, max)
  {
    hide ProdCapture, ViewNamed, Charge, ByteLen, ProdRequests, AppendItems, Through;
  }

  /** What is known of the items of a capture. */
  lemma CapturedLines(m: Model, pending: bool, max: nat)
    requires Inv(m) && CaptureView(m, pending, max).Ok?
    ensures var c := CaptureView(m, pending, max).value;
            && NewestItems(m.rows, Flat(m.requests)) && NewestItems(m.rows, c.pending)
            && Lines(m.rows, Flat(m.requests) + c.pending).Ok?
            && c.conversation == Join(Lines(m.rows, Flat(m.requests) + c.pending).value)
  {
    NewestView(m);
    PickSucceeds(m, |m.order|);
    hide Inv, NewestItems, Lines, Join, Flat, ByteLen;
    assert NewestItems(m.rows, []) by { NoItems(m.rows); }
  }

  lemma NoItems(rows: seq<Row>)
    ensures NewestItems(rows, [])
  {
  }

  lemma FittingView(m: Model, replies: seq<Reply>, overlay: Overlay, capture: Capture, max: nat)
    requires DistinctInvocations(m.requests) && SortedReplies(replies) && Shortening(replies, overlay)
    requires NewestItems(m.rows, Flat(m.requests)) && NewestItems(m.rows, capture.pending)
    requires Lines(m.rows, Flat(m.requests) + capture.pending).Ok?
    requires capture.conversation == Join(Lines(m.rows, Flat(m.requests) + capture.pending).value)
    requires Charge(replies) + ByteLen(capture.conversation) <= max
    ensures AppendedView(m, replies, overlay, capture, max) == ShownView(m, replies, overlay, capture)
    ensures ShownView(m, replies, overlay, capture).Ok?
    ensures ByteLen(ShownView(m, replies, overlay, capture).value.conversation) <= max
  {
    hide DistinctInvocations, SortedReplies, Shortening, NewestItems, Lines, Flat, Join, Charge, ByteLen, ViewParts, RenderParts,
      ProdRequests, AppendItems, Through;
    ViewTexts(m, replies, overlay, capture.pending);
    ViewFits(m, replies, overlay, capture.pending);
    ViewRenders(m, replies, capture.pending, overlay, max);
  }

  lemma ProductionRepliesAgree(m: Model, replies: seq<Reply>, pending: bool, max: nat)
    requires Inv(m) && Sized(m) && SortedReplies(replies)
    ensures ProdCaptureReplies(m, replies, pending, max) == CaptureReplies(m, replies, pending, max)
  {
    assert DistinctInvocations(m.requests);
    assert Shortening(replies, PLAIN);
    hide Inv, Sized, CaptureView, Charge, ByteLen, SortedReplies, Shortening, DistinctInvocations, ViewParts, RequestParts, Lines,
      RenderParts, FindReply, LastUser, ProdReplyView, RepliesNamed;
    ReplyViewIs(m, replies, pending, PLAIN, max);
    PlainNamed(m, replies);
    if CaptureView(m, pending, max).Ok? {
      ReplyTexts(m, replies, pending, max);
    }
  }

  lemma PlainNamed(m: Model, replies: seq<Reply>)
    ensures ViewNamed(m, replies, PLAIN) <==>
            !exists i | 0 <= i < |replies| :: !Named(m.requests, replies[i].invocation)
  {
    hide FindReply, Named;
  }

  /**
    A view under an overlay whose replacements are no longer than the replies: its outcome is decided
    by the charge and the names alone, it respects the limit, and it shows exactly the replies that
    the overlay and the trailing rule select.
   */
  lemma ReplyViewOutcome(m: Model, replies: seq<Reply>, pending: bool, overlay: Overlay, max: nat, v: nat)
    requires ValidateError(m).None? && SortedReplies(replies) && Shortening(replies, overlay)
    ensures var r := ProdReplyView(m, replies, pending, overlay, max);
            var fits := |Utf8(Conversation(m, pending))| + |Utf8(Supplied(replies))| + 32 * |replies| <= max;
            && (r.Ok? <==> fits && OverlayFits(m.requests, replies, overlay))
            && (r == Err(Capacity) <==> !fits)
            && (r == Err(InvalidInput) <==> fits && !OverlayFits(m.requests, replies, overlay))
            && (r.Ok? ==>
                  |Utf8(r.value.conversation)| <= max
                  && (v in r.value.replies <==>
                      exists i: nat :: i < |m.requests| && m.requests[i].invocation == v
                                       && ShownText(replies, overlay, Through(m.requests, r.value.pending != []), i, v).Some?))
  {
    ValidateAcceptsExactly(m);
    assert DistinctInvocations(m.requests);
    hide Inv, Sized, ValidateError, CaptureView, Conversation, Charge, ByteLen, SortedReplies, Shortening, DistinctInvocations,
      ViewNamed, OverlayFits, ProdReplyView, ShownView, ShownText, Through;
    ReplyViewIs(m, replies, pending, overlay, max);
    ChargeIs(replies);
    ViewNamedIsFit(m, replies, overlay);
    CaptureFailsOnlyForCapacity(m, pending, max);
    if CaptureView(m, pending, max).Ok? {
      var capture := CaptureView(m, pending, max).value;
      if Charge(replies) + ByteLen(capture.conversation) <= max {
        CapturedLines(m, pending, max);
        FittingView(m, replies, overlay, capture, max);
        ShownInView(m, replies, overlay, capture, v);
      }
    }
  }

  lemma ShownInView(m: Model, replies: seq<Reply>, overlay: Overlay, capture: Capture, v: nat)
    requires ShownView(m, replies, overlay, capture).Ok?
    ensures var r := ShownView(m, replies, overlay, capture).value;
            && r.pending == capture.pending
            && (v in r.replies <==>
                exists i: nat :: i < |m.requests| && m.requests[i].invocation == v
                                 && ShownText(replies, overlay, Through(m.requests, capture.pending != []), i, v).Some?)
  {
    hide ViewParts, ShownText, Through, Lines, RenderParts;
    ShownInParts(m.rows, m.requests, replies, overlay, Through(m.requests, capture.pending != []), v);
  }

  lemma {:induction false} ShownInParts(rows: seq<Row>, requests: seq<Request>, replies: seq<Reply>, overlay: Overlay,
                                        through: nat, v: nat)
    requires ViewParts(rows, requests, replies, overlay, through).Ok?
    ensures v in ViewParts(rows, requests, replies, overlay, through).value.shown <==>
            exists i: nat :: i < |requests| && requests[i].invocation == v && ShownText(replies, overlay, through, i, v).Some?
  {
    hide ShownText, Lines, ReplyPart;
    if requests != [] {
      var front := Init(requests);
      ShownInParts(rows, front, replies, overlay, through, v);
      assert forall i | 0 <= i < |front| :: requests[i] == front[i];
    }
  }

  /** On every production run from an accepted ledger, both captures agree with the model's. */
  lemma ProductionRunCapturesAgree(start: Model, steps: seq<Step>, replies: seq<Reply>, pending: bool, max: nat)
    requires ValidateError(start).None? && SortedReplies(replies)
    ensures var m := ProdRunFrom(start, steps);
            && ProdCapture(m, pending, max) == CaptureView(m, pending, max)
            && ProdCaptureReplies(m, replies, pending, max) == CaptureReplies(m, replies, pending, max)
  {
    hide ProdRunFrom, Inv, Sized, ValidateError, ProdCapture, CaptureView, ProdCaptureReplies, CaptureReplies, SortedReplies;
    ProdRunKeepsInvariant(start, steps);
    ProductionCaptureAgrees(ProdRunFrom(start, steps), pending, max);
    ProductionRepliesAgree(ProdRunFrom(start, steps), replies, pending, max);
  }

  /**
    The fit of capture and incorporation in production's own terms, on every ledger it accepts: any
    prefix of what was captured, within the list bound and under an unused invocation, is accepted,
    and the next capture has the rest pending and the same text.
   */
  lemma ProductionPrefixIncorporates(m: Model, request: Request, author: nat, max: nat)
    requires ValidateError(m).None? && m.generation > 0 && Unused(m, request.invocation)
    requires ProdCapture(m, true, max).Ok? && request.items <= ProdCapture(m, true, max).value.pending
    requires |request.items| <= MAX_LIST
    ensures ProdApply(m, Incorporate(request), author).Ok?
    ensures var n := ProdApply(m, Incorporate(request), author).value;
            var seen := ProdCapture(m, true, max).value;
            ProdCapture(n, true, max) == Ok(seen.(pending := seen.pending[|request.items|..]))
  {
    hide Inv, Sized, ValidateError, ProdCapture, CaptureView, Apply, ProdApply, Unused, ConstructorValid;
    ValidateAcceptsExactly(m);
    ProductionCaptureAgrees(m, true, max);
    CapturedPrefixIncorporates(m, request, author, max);
    ProductionAnswers(m, Incorporate(request), author);
    NotConstructed(m, Incorporate(request), author);
    var n := ProdApply(m, Incorporate(request), author).value;
    ValidateAcceptsExactly(n);
    ProductionCaptureAgrees(n, true, max);
  }
}
