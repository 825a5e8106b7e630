/**
  What the captured views say, word for word: every included input as a
  paragraph of its own, every shown reply directly after the inputs of its
  request, in the words supplied for it.
 */
module LedgerText {
  import opened Common
  import opened Text
  import opened LedgerModel
  import opened LedgerInvariant
  import opened LedgerSteps
  import opened LedgerCapture
  import opened LedgerReplies
  import opened LedgerProduction
  import opened LedgerDecoded
  import opened LedgerProductionCapture

  ghost predicate Carries(rows: seq<Row>, j: nat, s: Selection) {
    j < |rows| && rows[j].selected == s
  }

  /** The text of the row that carries a selection. */
  ghost function TextOf(rows: seq<Row>, s: Selection): string {
    if exists j: nat :: Carries(rows, j, s) then
      var j: nat :| Carries(rows, j, s);
      rows[j].text
    else ""
  }

  /** Inputs as paragraphs, each after a blank line. */
  ghost function UserText(rows: seq<Row>, items: seq<Selection>): string {
    if items == [] then "" else UserText(rows, Init(items)) + ("\n\nUser: " + TextOf(rows, Last(items)))
  }

  /** The k-th reply is shown after the i-th request; `all` when something is pending. */
  ghost predicate Shows(requests: seq<Request>, replies: seq<Reply>, overlay: Overlay, all: bool, i: nat, k: nat) {
    && i < |requests| && k < |replies| && replies[k].invocation == requests[i].invocation
    && (all || InputsAfter(requests, i) || requests[i].invocation in overlay.pinned)
    && requests[i].invocation !in overlay.excluded
  }

  /** The words that stand for a reply. */
  ghost function Words(overlay: Overlay, reply: Reply): string {
    if reply.invocation in overlay.replacements then overlay.replacements[reply.invocation] else reply.text
  }

  ghost predicate Answered(requests: seq<Request>, replies: seq<Reply>, overlay: Overlay, all: bool, i: nat) {
    exists k: nat :: Shows(requests, replies, overlay, all, i, k)
  }

  ghost function ReplyText(requests: seq<Request>, replies: seq<Reply>, overlay: Overlay, all: bool, i: nat): string {
    if Answered(requests, replies, overlay, all, i) then
      var k: nat :| Shows(requests, replies, overlay, all, i, k);
      "\n\nPeritus (public reply): " + Words(overlay, replies[k])
    else ""
  }

  /** The first n requests, each with the paragraphs of its inputs and then its reply. */
  ghost function Transcript(m: Model, replies: seq<Reply>, overlay: Overlay, all: bool, n: nat): string
    requires n <= |m.requests|
  {
    if n == 0 then ""
    else
      Transcript(m, replies, overlay, all, n - 1)
      + UserText(m.rows, m.requests[n - 1].items) + ReplyText(m.requests, replies, overlay, all, n - 1)
  }

  /** The invocations whose replies are shown, in request order. */
  ghost function ShownUpTo(requests: seq<Request>, replies: seq<Reply>, overlay: Overlay, all: bool, n: nat): seq<nat>
    requires n <= |requests|
  {
    if n == 0 then []
    else
      ShownUpTo(requests, replies, overlay, all, n - 1)
      + if Answered(requests, replies, overlay, all, n - 1) then [requests[n - 1].invocation] else []
  }

  /** A view is its paragraphs, without the first blank line when it opens with an input. */
  ghost predicate Opens(view: string, paragraphs: string) {
    if "\n\nUser: " <= paragraphs then "\n\n" + view == paragraphs else view == paragraphs
  }

  // ----- joined parts as paragraphs -----

  function Paragraphs(texts: seq<string>): string {
    if texts == [] then "" else Paragraphs(Init(texts)) + ("\n\n" + Last(texts))
  }

  lemma {:induction false} ParagraphsConcat(a: seq<string>, b: seq<string>)
    ensures Paragraphs(a + b) == Paragraphs(a) + Paragraphs(b)
  {
    if b == [] {
      assert a + b == a;
    } else {
      ParagraphsConcat(a, Init(b));
      assert Init(a + b) == a + Init(b) && Last(a + b) == Last(b);
    }
  }

  lemma {:induction false} JoinedParagraphs(texts: seq<string>)
    requires texts != []
    ensures "\n\n" + Join(texts) == Paragraphs(texts)
  {
    if |texts| == 1 {
      assert Init(texts) == [] && Paragraphs(Init(texts)) == "";
    } else {
      JoinedParagraphs(Init(texts));
      assert "\n\n" + (Join(Init(texts)) + "\n\n" + Last(texts)) == ("\n\n" + Join(Init(texts))) + ("\n\n" + Last(texts));
    }
  }

  lemma {:induction false} FirstParagraph(texts: seq<string>)
    requires texts != []
    ensures "\n\n" + texts[0] <= Paragraphs(texts)
  {
    if |texts| == 1 {
      assert Init(texts) == [] && Paragraphs(Init(texts)) == "";
    } else {
      FirstParagraph(Init(texts));
    }
  }

  // ----- the parts of a view -----

  lemma TextOfRow(rows: seq<Row>, s: Selection)
    requires RowsOk(rows) && Exact(rows, s).Ok?
    ensures TextOf(rows, s) == Exact(rows, s).value.text
  {
    assert Carries(rows, ExactIndex(rows, s).value, s);
    forall j: nat | Carries(rows, j, s) ensures j == ExactIndex(rows, s).value {
    }
  }

  lemma UserParagraph(row: Row)
    ensures "\n\n" + UserLine(row) == "\n\nUser: " + row.text
    ensures "User: " <= UserLine(row)
  {
    assert "\n\n" + "User: " == "\n\nUser: ";
    assert "\n\n" + ("User: " + row.text) == ("\n\n" + "User: ") + row.text;
  }

  lemma ReplyParagraph(text: string)
    ensures "\n\n" + ReplyPart(text) == "\n\nPeritus (public reply): " + text
    ensures REPLY_MARK <= ReplyPart(text)
  {
    assert "\n\n" + (REPLY_MARK + " ") == "\n\nPeritus (public reply): ";
    assert "\n\n" + (REPLY_MARK + " " + text) == ("\n\n" + (REPLY_MARK + " ")) + text;
  }

  lemma OneParagraph(text: string)
    ensures Paragraphs([text]) == "\n\n" + text && Paragraphs([]) == ""
  {
    assert Init([text]) == [];
    assert Paragraphs(Init([text])) == "";
  }

  ghost predicate Marked(texts: seq<string>) {
    forall t | t in texts :: "User: " <= t || REPLY_MARK <= t
  }

  lemma {:induction false} LinesSay(rows: seq<Row>, items: seq<Selection>)
    requires RowsOk(rows) && Lines(rows, items).Ok?
    ensures Paragraphs(Lines(rows, items).value) == UserText(rows, items) && Marked(Lines(rows, items).value)
  {
    hide RowsOk, UserLine, Exact;
    if items != [] {
      LinesSay(rows, Init(items));
      var row := Exact(rows, Last(items)).value;
      TextOfRow(rows, Last(items));
      UserParagraph(row);
      assert Init(Lines(rows, items).value) == Lines(rows, Init(items)).value;
    }
  }

  lemma {:induction false} FoundReply(replies: seq<Reply>, k: nat)
    requires SortedReplies(replies) && k < |replies|
    ensures FindReply(replies, replies[k].invocation) == Some(replies[k].text)
  {
    if k < |replies| - 1 {
      assert replies[k] == Init(replies)[k];
      FoundReply(Init(replies), k);
    }
  }

  /** The text that the view lays after a request is that request's reply, or there is none. */
  lemma ShownTextSays(requests: seq<Request>, replies: seq<Reply>, overlay: Overlay, all: bool, i: nat)
    requires SortedReplies(replies) && i < |requests|
    ensures var shown := ShownText(replies, overlay, Through(requests, all), i, requests[i].invocation);
            && (shown.Some? <==> Answered(requests, replies, overlay, all, i))
            && ReplyText(requests, replies, overlay, all, i) ==
               if shown.Some? then "\n\nPeritus (public reply): " + shown.value else ""
  {
    hide FindReply, SortedReplies, InputsAfter, LastUser;
    var v := requests[i].invocation;
    FindReplyExact(replies, v);
    BeforeLastUser(requests, i);
    forall k: nat | k < |replies| && replies[k].invocation == v
      ensures FindReply(replies, v) == Some(replies[k].text)
    {
      FoundReply(replies, k);
    }
    if ShownText(replies, overlay, Through(requests, all), i, v).Some? {
      var k: nat :| k < |replies| && replies[k].invocation == v;
      assert Shows(requests, replies, overlay, all, i, k);
    }
  }

  lemma {:induction false} PartsSay(m: Model, replies: seq<Reply>, overlay: Overlay, all: bool, n: nat)
    requires RowsOk(m.rows) && SortedReplies(replies) && n <= |m.requests|
    requires ViewParts(m.rows, m.requests[..n], replies, overlay, Through(m.requests, all)).Ok?
    ensures var parts := ViewParts(m.rows, m.requests[..n], replies, overlay, Through(m.requests, all)).value;
            && Paragraphs(parts.texts) == Transcript(m, replies, overlay, all, n) && Marked(parts.texts)
            && parts.shown == ShownUpTo(m.requests, replies, overlay, all, n)
  {
    hide RowsOk, SortedReplies, Lines, ShownText, ReplyPart, UserText, ReplyText, Through, Paragraphs, Answered, Marked;
    OneParagraph("");
    if n == 0 {
      NothingMarked();
    } else {
      var requests, through := m.requests[..n], Through(m.requests, all);
      assert Init(requests) == m.requests[..n - 1] && Last(requests) == m.requests[n - 1];
      PartsSay(m, replies, overlay, all, n - 1);
      var earlier := ViewParts(m.rows, m.requests[..n - 1], replies, overlay, through).value;
      var lines := Lines(m.rows, m.requests[n - 1].items).value;
      LinesSay(m.rows, m.requests[n - 1].items);
      ShownTextSays(m.requests, replies, overlay, all, n - 1);
      PartsGrow(earlier.texts, lines, ShownText(replies, overlay, through, n - 1, m.requests[n - 1].invocation));
    }
  }

  lemma NothingMarked()
    ensures Marked([])
  {
  }

  /** One more request: its lines, then its reply when there is one. */
  lemma PartsGrow(texts: seq<string>, lines: seq<string>, reply: Option<string>)
    requires Marked(texts) && Marked(lines)
    ensures var front := texts + lines;
            && Marked(front) && Paragraphs(front) == Paragraphs(texts) + Paragraphs(lines)
            && (reply.Some? ==>
                  Marked(front + [ReplyPart(reply.value)])
                  && Paragraphs(front + [ReplyPart(reply.value)]) ==
                     Paragraphs(texts) + Paragraphs(lines) + ("\n\nPeritus (public reply): " + reply.value))
  {
    hide ReplyPart, Paragraphs;
    ParagraphsConcat(texts, lines);
    if reply.Some? {
      ReplyParagraph(reply.value);
      OneParagraph(ReplyPart(reply.value));
      ParagraphsConcat(texts + lines, [ReplyPart(reply.value)]);
    }
  }

  lemma RenderOpens(texts: seq<string>)
    requires Marked(texts)
    ensures Opens(RenderParts(texts), Paragraphs(texts))
  {
    OneParagraph("");
    if texts != [] {
      hide Paragraphs, Join;
      JoinedParagraphs(texts);
      FirstParagraph(texts);
      var all := Paragraphs(texts);
      assert texts[0] in texts;
      assert all[2] == texts[0][0];
      if REPLY_MARK <= texts[0] {
        assert all[2] == 'P' && "\n\nUser: "[2] == 'U';
      } else {
        OpensWithUser(all, texts[0]);
      }
    }
  }

  lemma OpensWithUser(all: string, first: string)
    requires "\n\n" + first <= all && "User: " <= first
    ensures "\n\nUser: " <= all
  {
    assert "\n\n" + "User: " == "\n\nUser: ";
    assert "\n\n" + "User: " <= "\n\n" + first;
  }

  lemma ViewSays(m: Model, replies: seq<Reply>, overlay: Overlay, capture: Capture)
    requires RowsOk(m.rows) && SortedReplies(replies) && ShownView(m, replies, overlay, capture).Ok?
    ensures var view := ShownView(m, replies, overlay, capture).value;
            var all := capture.pending != [];
            && Opens(view.conversation, Transcript(m, replies, overlay, all, |m.requests|) + UserText(m.rows, capture.pending))
            && view.replies == ShownUpTo(m.requests, replies, overlay, all, |m.requests|)
  {
    hide RowsOk, SortedReplies, Lines, ViewParts, RenderParts, Paragraphs, UserText, Through, Opens;
    var all := capture.pending != [];
    assert m.requests[..|m.requests|] == m.requests;
    PartsSay(m, replies, overlay, all, |m.requests|);
    LinesSay(m.rows, capture.pending);
    var parts := ViewParts(m.rows, m.requests, replies, overlay, Through(m.requests, all)).value;
    ParagraphsConcat(parts.texts, Lines(m.rows, capture.pending).value);
    RenderOpens(parts.texts + Lines(m.rows, capture.pending).value);
  }

  // ----- the captured texts -----

  /** The measured conversation: one paragraph "User: ..." for each included input, in order, and nothing else. */
  lemma ConversationText(m: Model, pending: bool)
    requires Inv(m)
    ensures Opens(Conversation(m, pending), UserText(m.rows, Flat(m.requests) + if pending then Picked(m) else []))
  {
    hide RowsOk, Lines, RenderParts, Paragraphs, UserText, Opens, Join;
    var included := Flat(m.requests) + if pending then Picked(m) else [];
    NewestView(m);
    AppendView(m.rows, included, 0);
    LinesSay(m.rows, included);
    RenderOpens(Lines(m.rows, included).value);
    PlainRender(m.rows, included);
  }

  /**
    The capture without replies says exactly its inputs, and is refused exactly when the UTF-8
    encoding of that is over the limit.
   */
  lemma CapturedText(m: Model, pending: bool, max: nat, text: string)
    requires Inv(m) && Opens(text, UserText(m.rows, Flat(m.requests) + if pending then Picked(m) else []))
    ensures var r := CaptureView(m, pending, max);
            if |Utf8(text)| > max then r == Err(Capacity) else r.Ok? && r.value.conversation == text
  {
    hide Inv, Conversation, UserText, CaptureView, Flat, Picked, Utf8;
    ConversationText(m, pending);
    CaptureFailsOnlyForCapacity(m, pending, max);
    if "\n\nUser: " <= UserText(m.rows, Flat(m.requests) + if pending then Picked(m) else []) {
      assert ("\n\n" + text)[2..] == text && ("\n\n" + Conversation(m, pending))[2..] == Conversation(m, pending);
    }
  }

  /**
    The capture with replies: the inputs of each request, directly followed by the reply supplied for
    it when that is shown, then the pending inputs; the listed invocations are those shown, in order;
    all else is as in the capture without replies.
   */
  lemma ReplyCaptureText(m: Model, replies: seq<Reply>, pending: bool, max: nat)
    requires Inv(m) && SortedReplies(replies) && CaptureReplies(m, replies, pending, max).Ok?
    ensures var c := CaptureReplies(m, replies, pending, max).value;
            var all := c.pending != [];
            && Opens(c.conversation, Transcript(m, replies, PLAIN, all, |m.requests|) + UserText(m.rows, c.pending))
            && c.replies == ShownUpTo(m.requests, replies, PLAIN, all, |m.requests|)
            && CaptureView(m, pending, max) == Ok(c.(replies := [], conversation := Conversation(m, pending)))
  {
    assert DistinctInvocations(m.requests) && RowsOk(m.rows);
    hide Inv, RowsOk, DistinctInvocations, SortedReplies, CaptureView, Charge, ByteLen, Lines, ViewParts, RequestParts, RenderParts,
      Transcript, ShownUpTo, UserText, Opens, LastUser, Named;
    ReplyTexts(m, replies, pending, max);
    CaptureFailsOnlyForCapacity(m, pending, max);
    ViewSays(m, replies, PLAIN, CaptureView(m, pending, max).value);
  }

  /** The same for the production view under any overlay. */
  lemma ReplyViewText(m: Model, replies: seq<Reply>, pending: bool, overlay: Overlay, max: nat)
    requires ValidateError(m).None? && SortedReplies(replies) && Shortening(replies, overlay)
    requires ProdReplyView(m, replies, pending, overlay, max).Ok?
    ensures var c := ProdReplyView(m, replies, pending, overlay, max).value;
            var all := c.pending != [];
            && Opens(c.conversation, Transcript(m, replies, overlay, all, |m.requests|) + UserText(m.rows, c.pending))
            && c.replies == ShownUpTo(m.requests, replies, overlay, all, |m.requests|)
            && CaptureView(m, pending, max) == Ok(c.(replies := [], conversation := Conversation(m, pending)))
  {
    ValidateAcceptsExactly(m);
    assert RowsOk(m.rows);
    hide Inv, Sized, RowsOk, ValidateError, CaptureView, Charge, ByteLen, SortedReplies, Shortening, ViewNamed, ProdReplyView, Transcript,
      ShownUpTo, UserText, Opens;
    ReplyViewIs(m, replies, pending, overlay, max);
    CaptureFailsOnlyForCapacity(m, pending, max);
    ViewSays(m, replies, overlay, CaptureView(m, pending, max).value);
  }

  /** Somewhere in `all` the reply's words stand directly after these inputs. */
  ghost predicate Quotes(all: string, inputs: string, words: string) {
    exists before, after :: all == before + (inputs + "\n\nPeritus (public reply): " + words) + after
  }

  lemma QuotesMore(all: string, inputs: string, words: string, more: string)
    requires Quotes(all, inputs, words)
    ensures Quotes(all + more, inputs, words)
  {
    var part := inputs + "\n\nPeritus (public reply): " + words;
    var before, after :| all == before + part + after;
    assert all + more == before + part + (after + more);
  }

  /** A shown reply stands in the transcript directly after the inputs of its request, in the words supplied. */
  lemma {:induction false} ReplyFollowsItsRequest(m: Model, replies: seq<Reply>, overlay: Overlay, all: bool, n: nat, i: nat, k: nat)
    requires SortedReplies(replies) && i < n <= |m.requests| && k < |replies| && Shows(m.requests, replies, overlay, all, i, k)
    ensures Quotes(Transcript(m, replies, overlay, all, n), UserText(m.rows, m.requests[i].items), Words(overlay, replies[k]))
  {
    hide UserText, Quotes, ReplyText, Shows;
    var front, inputs := Transcript(m, replies, overlay, all, n - 1), UserText(m.rows, m.requests[n - 1].items);
    var reply := ReplyText(m.requests, replies, overlay, all, n - 1);
    if i < n - 1 {
      ReplyFollowsItsRequest(m, replies, overlay, all, n - 1, i, k);
      QuotesMore(front, UserText(m.rows, m.requests[i].items), Words(overlay, replies[k]), inputs + reply);
      assert front + (inputs + reply) == Transcript(m, replies, overlay, all, n);
    } else {
      ReplyTextIs(m.requests, replies, overlay, all, i, k);
      QuotesHere(front, inputs, Words(overlay, replies[k]));
    }
    hide Words;
  }

  lemma ReplyTextIs(requests: seq<Request>, replies: seq<Reply>, overlay: Overlay, all: bool, i: nat, k: nat)
    requires SortedReplies(replies) && Shows(requests, replies, overlay, all, i, k)
    ensures ReplyText(requests, replies, overlay, all, i) == "\n\nPeritus (public reply): " + Words(overlay, replies[k])
  {
  }

  lemma QuotesHere(front: string, inputs: string, words: string)
    ensures Quotes(front + inputs + ("\n\nPeritus (public reply): " + words), inputs, words)
  {
    assert front + inputs + ("\n\nPeritus (public reply): " + words)
           == front + (inputs + "\n\nPeritus (public reply): " + words) + "";
  }

  lemma QuotesBefore(all: string, inputs: string, words: string, first: string)
    requires Quotes(all, inputs, words)
    ensures Quotes(first + all, inputs, words)
  {
    var part := inputs + "\n\nPeritus (public reply): " + words;
    var before, after :| all == before + part + after;
    assert first + all == (first + before) + part + after;
  }

  /**
    Read off the view itself: whenever an invocation is listed as shown, the reply supplied for it
    stands in the conversation directly after the inputs of its request.
   */
  lemma ShownReplyIsRead(m: Model, replies: seq<Reply>, pending: bool, max: nat, i: nat, k: nat)
    requires Inv(m) && SortedReplies(replies) && CaptureReplies(m, replies, pending, max).Ok?
    requires i < |m.requests| && k < |replies| && replies[k].invocation == m.requests[i].invocation
    requires m.requests[i].invocation in CaptureReplies(m, replies, pending, max).value.replies
    ensures Quotes("\n\n" + CaptureReplies(m, replies, pending, max).value.conversation,
                   UserText(m.rows, m.requests[i].items), replies[k].text)
  {
    assert forall a, b | 0 <= a < b < |m.requests| :: m.requests[a].invocation != m.requests[b].invocation;
    hide Inv, SortedReplies, CaptureReplies, Transcript, UserText, ShownUpTo, Quotes, InputsAfter;
    var c := CaptureReplies(m, replies, pending, max).value;
    var all, n, inputs := c.pending != [], |m.requests|, UserText(m.rows, m.requests[i].items);
    RepliesShownExactly(m, replies, pending, max, m.requests[i].invocation);
    assert Shows(m.requests, replies, PLAIN, all, i, k);
    ReplyFollowsItsRequest(m, replies, PLAIN, all, n, i, k);
    var told := Transcript(m, replies, PLAIN, all, n);
    QuotesMore(told, inputs, replies[k].text, UserText(m.rows, c.pending));
    ReplyCaptureText(m, replies, pending, max);
    QuotesBefore(told + UserText(m.rows, c.pending), inputs, replies[k].text, "\n\n");
  }
}
