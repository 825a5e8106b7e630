/**
  Captures that interleave public replies.  The up-front charge of 32 bytes
  per reply covers its prefix, its separator and the optional leading blank,
  so an accepted view is within the request limit.
 */
module LedgerReplies {
  import opened Common
  import opened Text
  import opened LedgerModel
  import opened LedgerInvariant
  import opened LedgerSteps
  import opened LedgerCapture

  /** Every part with the two bytes of one separator. */
  function Weight(parts: seq<string>): nat {
    if parts == [] then 0 else Weight(Init(parts)) + ByteLen(Last(parts)) + 2
  }

  lemma {:induction false} WeightConcat(a: seq<string>, b: seq<string>)
    ensures Weight(a + b) == Weight(a) + Weight(b)
  {
    if b == [] {
      assert a + b == a;
    } else {
      WeightConcat(a, Init(b));
      assert Init(a + b) == a + Init(b) && Last(a + b) == Last(b);
    }
  }

  lemma {:induction false} JoinWeight(parts: seq<string>)
    ensures parts == [] ==> ByteLen(Join(parts)) == 0
    ensures parts != [] ==> ByteLen(Join(parts)) + 2 == Weight(parts)
  {
    hide Utf8;
    if |parts| == 1 {
      assert Init(parts) == [];
      assert Weight(Init(parts)) == 0;
    } else if |parts| > 1 {
      JoinWeight(Init(parts));
      ByteLenConcat(Join(Init(parts)) + "\n\n", Last(parts));
      ByteLenConcat(Join(Init(parts)), "\n\n");
      ByteLenAscii("\n\n");
    }
  }

  lemma {:induction false} LinesConcat(rows: seq<Row>, a: seq<Selection>, b: seq<Selection>)
    ensures Lines(rows, a).Ok? && Lines(rows, b).Ok? <==> Lines(rows, a + b).Ok?
    ensures Lines(rows, a + b).Ok? ==> Lines(rows, a + b).value == Lines(rows, a).value + Lines(rows, b).value
  {
    if b == [] {
      assert a + b == a;
    } else {
      LinesConcat(rows, a, Init(b));
      assert Init(a + b) == a + Init(b) && Last(a + b) == Last(b);
    }
  }

  /** All reply texts, one after the other. */
  function Supplied(replies: seq<Reply>): string {
    if replies == [] then "" else Supplied(Init(replies)) + Last(replies).text
  }

  lemma {:induction false} ChargeIs(replies: seq<Reply>)
    ensures Charge(replies) == |Utf8(Supplied(replies))| + 32 * |replies|
  {
    hide EncodeChar, ByteLen;
    if replies != [] {
      ChargeIs(Init(replies));
      Utf8Concat(Supplied(Init(replies)), Last(replies).text);
    }
  }

  /** The part of the charge that belongs to the listed invocations. */
  function Charged(replies: seq<Reply>, shown: seq<nat>): nat {
    if replies == [] then 0
    else
      Charged(Init(replies), shown)
      + if Last(replies).invocation in shown then ByteLen(Last(replies).text) + 32 else 0
  }

  lemma {:induction false} ChargedAtMost(replies: seq<Reply>, shown: seq<nat>)
    ensures Charged(replies, shown) <= Charge(replies)
  {
    if replies != [] {
      ChargedAtMost(Init(replies), shown);
    }
  }

  lemma {:induction false} ChargedSame(replies: seq<Reply>, xs: seq<nat>, ys: seq<nat>)
    requires forall i | 0 <= i < |replies| :: replies[i].invocation in xs <==> replies[i].invocation in ys
    ensures Charged(replies, xs) == Charged(replies, ys)
  {
    if replies != [] {
      assert Last(replies) == replies[|replies| - 1];
      ChargedSame(Init(replies), xs, ys);
    }
  }

  lemma {:induction false} ChargedGrows(replies: seq<Reply>, shown: seq<nat>, v: nat)
    requires SortedReplies(replies) && v !in shown && FindReply(replies, v).Some?
    ensures Charged(replies, shown + [v]) == Charged(replies, shown) + ByteLen(FindReply(replies, v).value) + 32
  {
    if Last(replies).invocation == v {
      ChargedSame(Init(replies), shown, shown + [v]);
    } else {
      ChargedGrows(Init(replies), shown, v);
    }
  }

  lemma ReplyPartWeight(text: string)
    ensures ByteLen(ReplyPart(text)) == ByteLen(text) + 24
  {
    hide Utf8;
    ByteLenConcat(REPLY_MARK + " ", text);
    ByteLenAscii(REPLY_MARK + " ");
  }

  ghost predicate DistinctInvocations(requests: seq<Request>) {
    forall i, j :: 0 <= i < j < |requests| ==> requests[i].invocation != requests[j].invocation
  }

  // ----- views: which replies are shown, and in which words -----

  /** What production lays over a view: replies always shown, never shown, or shown in other words. */
  datatype Overlay = Overlay(pinned: set<nat>, excluded: set<nat>, replacements: map<nat, string>)

  const PLAIN := Overlay({}, {}, map[])

  /** The text shown after the i-th request, if any. */
  function ShownText(replies: seq<Reply>, overlay: Overlay, through: nat, i: nat, v: nat): Option<string> {
    var reply := FindReply(replies, v);
    if reply.Some? && (i < through || v in overlay.pinned) && v !in overlay.excluded then
      Some(if v in overlay.replacements then overlay.replacements[v] else reply.value)
    else None
  }

  /** The parts of the requests under an overlay. */
  function ViewParts(rows: seq<Row>, requests: seq<Request>, replies: seq<Reply>, overlay: Overlay, through: nat): Result<Parts> {
    if requests == [] then Ok(Parts([], []))
    else
      var earlier := ViewParts(rows, Init(requests), replies, overlay, through);
      var request := Last(requests);
      var lines := Lines(rows, request.items);
      var text := ShownText(replies, overlay, through, |requests| - 1, request.invocation);
      if earlier.Err? then earlier
      else if lines.Err? then Err(lines.error)
      else if text.Some? then
        Ok(Parts(earlier.value.texts + lines.value + [ReplyPart(text.value)], earlier.value.shown + [request.invocation]))
      else Ok(Parts(earlier.value.texts + lines.value, earlier.value.shown))
  }

  /** The model's parts are those of the plain overlay. */
  lemma {:induction false} PlainParts(rows: seq<Row>, requests: seq<Request>, replies: seq<Reply>,
                                      all: bool, last: nat, through: nat)
    requires if all then |requests| <= through else through == last
    ensures ViewParts(rows, requests, replies, PLAIN, through) == RequestParts(rows, requests, replies, all, last)
  {
    hide FindReply, Lines, ReplyPart;
    if requests != [] {
      PlainParts(rows, Init(requests), replies, all, last, through);
    }
  }

  /** Replacements are never longer than the replies they stand for. */
  ghost predicate Shortening(replies: seq<Reply>, overlay: Overlay) {
    forall v | v in overlay.replacements && FindReply(replies, v).Some? ::
      ByteLen(overlay.replacements[v]) <= ByteLen(FindReply(replies, v).value)
  }

  lemma ShownAtMost(replies: seq<Reply>, overlay: Overlay, through: nat, i: nat, v: nat)
    requires Shortening(replies, overlay) && ShownText(replies, overlay, through, i, v).Some?
    ensures FindReply(replies, v).Some?
    ensures ByteLen(ShownText(replies, overlay, through, i, v).value) <= ByteLen(FindReply(replies, v).value)
  {
  }

  lemma OnePartWeight(texts: seq<string>, part: string)
    ensures Weight(texts + [part]) == Weight(texts) + ByteLen(part) + 2
  {
    WeightConcat(texts, [part]);
    assert Init([part]) == [] && Weight(Init([part])) == 0;
  }

  /** A view weighs its inputs plus at most the charge of the replies shown, six bytes each to spare. */
  lemma {:induction false} ViewWeight(rows: seq<Row>, requests: seq<Request>, replies: seq<Reply>, overlay: Overlay, through: nat)
    requires SortedReplies(replies) && Lines(rows, Flat(requests)).Ok? && Shortening(replies, overlay)
    requires DistinctInvocations(requests)
    ensures ViewParts(rows, requests, replies, overlay, through).Ok?
    ensures var parts := ViewParts(rows, requests, replies, overlay, through).value;
            && Weight(parts.texts) + 6 * |parts.shown| <= Weight(Lines(rows, Flat(requests)).value) + Charged(replies, parts.shown)
            && (forall v | v in parts.shown :: exists i :: 0 <= i < |requests| && requests[i].invocation == v)
  {
    hide SortedReplies, Shortening, FindReply, ShownText, ReplyPart, ByteLen, Weight, Charged, Lines;
    ChargedNone(replies);
    if requests == [] {
      NoWeight(rows);
    } else {
      var front, request := Init(requests), Last(requests);
      LinesConcat(rows, Flat(front), request.items);
      assert DistinctInvocations(front);
      ViewWeight(rows, front, replies, overlay, through);
      var earlier := ViewParts(rows, front, replies, overlay, through).value;
      var lines := Lines(rows, request.items).value;
      WeightConcat(Lines(rows, Flat(front)).value, lines);
      WeightConcat(earlier.texts, lines);
      var parts := ViewParts(rows, requests, replies, overlay, through).value;
      var text := ShownText(replies, overlay, through, |front|, request.invocation);
      if text.Some? {
        ShownAtMost(replies, overlay, through, |front|, request.invocation);
        ReplyPartWeight(text.value);
        OnePartWeight(earlier.texts + lines, ReplyPart(text.value));
        assert request.invocation !in earlier.shown;
        ChargedGrows(replies, earlier.shown, request.invocation);
      }
      forall v | v in parts.shown ensures exists i :: 0 <= i < |requests| && requests[i].invocation == v {
        if v in earlier.shown {
          var i :| 0 <= i < |front| && front[i].invocation == v;
          assert requests[i].invocation == v;
        } else {
          assert requests[|requests| - 1].invocation == v;
        }
      }
    }
  }

  lemma NoWeight(rows: seq<Row>)
    ensures Lines(rows, []).Ok? && Weight(Lines(rows, []).value) == 0 && Weight([]) == 0
  {
  }

  lemma {:induction false} ChargedNone(replies: seq<Reply>)
    ensures Charged(replies, []) == 0
  {
    if replies != [] {
      ChargedNone(Init(replies));
    }
  }

  lemma {:induction false} NothingShown(rows: seq<Row>, requests: seq<Request>, replies: seq<Reply>, overlay: Overlay, through: nat)
    requires Lines(rows, Flat(requests)).Ok? && ViewParts(rows, requests, replies, overlay, through).Ok?
    ensures var parts := ViewParts(rows, requests, replies, overlay, through).value;
            parts.shown == [] ==> parts.texts == Lines(rows, Flat(requests)).value
    ensures replies == [] ==> ViewParts(rows, requests, replies, overlay, through).value.shown == []
  {
    hide ReplyPart, Lines;
    if requests != [] {
      LinesConcat(rows, Flat(Init(requests)), Last(requests).items);
      NothingShown(rows, Init(requests), replies, overlay, through);
    } else {
      NoWeight(rows);
      NoLines(rows);
    }
  }

  lemma NoLines(rows: seq<Row>)
    ensures Lines(rows, []) == Ok([])
  {
  }

  lemma LinesAreUserLines(rows: seq<Row>, items: seq<Selection>)
    requires Lines(rows, items).Ok? && Lines(rows, items).value != []
    ensures !(REPLY_MARK <= Lines(rows, items).value[0])
  {
    var lines := Lines(rows, items).value;
    FirstLine(rows, items);
    assert lines[0][0] == 'U' && REPLY_MARK[0] == 'P';
  }

  lemma {:induction false} FirstLine(rows: seq<Row>, items: seq<Selection>)
    requires Lines(rows, items).Ok? && Lines(rows, items).value != []
    ensures "User: " <= Lines(rows, items).value[0]
  {
    var earlier := Lines(rows, Init(items)).value;
    if earlier != [] {
      FirstLine(rows, Init(items));
    } else {
      assert Lines(rows, items).value[0] == UserLine(Exact(rows, Last(items)).value);
    }
  }

  /** The index past which replies are withheld. */
  function Through(requests: seq<Request>, pending: bool): nat {
    if pending then |requests| else LastUser(requests)
  }

  /** The texts of an accepted view, and why they exist. */
  lemma ViewTexts(m: Model, replies: seq<Reply>, overlay: Overlay, picked: seq<Selection>)
    requires DistinctInvocations(m.requests) && SortedReplies(replies) && Shortening(replies, overlay)
    requires Lines(m.rows, Flat(m.requests) + picked).Ok?
    ensures Lines(m.rows, Flat(m.requests)).Ok? && Lines(m.rows, picked).Ok?
    ensures Lines(m.rows, Flat(m.requests) + picked).value ==
            Lines(m.rows, Flat(m.requests)).value + Lines(m.rows, picked).value
    ensures ViewParts(m.rows, m.requests, replies, overlay, Through(m.requests, picked != [])).Ok?
  {
    hide DistinctInvocations, SortedReplies, Shortening, Lines, ViewParts, Flat;
    LinesConcat(m.rows, Flat(m.requests), picked);
    ViewWeight(m.rows, m.requests, replies, overlay, Through(m.requests, picked != []));
  }

  /** The texts of an accepted reply capture. */
  lemma ReplyTexts(m: Model, replies: seq<Reply>, pending: bool, max: nat)
    requires DistinctInvocations(m.requests) && SortedReplies(replies) && CaptureView(m, pending, max).Ok?
    ensures var picked := CaptureView(m, pending, max).value.pending;
            var through := Through(m.requests, picked != []);
            && Lines(m.rows, Flat(m.requests)).Ok? && Lines(m.rows, picked).Ok?
            && Lines(m.rows, Flat(m.requests) + picked).Ok?
            && Lines(m.rows, Flat(m.requests) + picked).value ==
               Lines(m.rows, Flat(m.requests)).value + Lines(m.rows, picked).value
            && RequestParts(m.rows, m.requests, replies, picked != [], LastUser(m.requests)).Ok?
            && RequestParts(m.rows, m.requests, replies, picked != [], LastUser(m.requests)) ==
               ViewParts(m.rows, m.requests, replies, PLAIN, through)
  {
    hide DistinctInvocations, SortedReplies, Lines, ViewParts, RequestParts, Flat, FindReply;
    var picked := CaptureView(m, pending, max).value.pending;
    ViewTexts(m, replies, PLAIN, picked);
    PlainParts(m.rows, m.requests, replies, picked != [], LastUser(m.requests), Through(m.requests, picked != []));
  }

  /** The arithmetic of the charge: `lines` is what was measured, `texts` what is rendered. */
  lemma RenderedLength(lines: seq<string>, texts: seq<string>, shown: nat, charged: nat)
    requires Weight(texts) + 6 * shown <= Weight(lines) + charged
    requires texts != [] && REPLY_MARK <= texts[0] ==> shown > 0
    requires shown == 0 ==> texts == lines
    ensures ByteLen(RenderParts(texts)) <= ByteLen(Join(lines)) + charged
  {
    hide Utf8;
    JoinWeight(texts);
    JoinWeight(lines);
    ByteLenConcat("\n\n", Join(texts));
    ByteLenAscii("\n\n");
  }

  /** A rendered view is within what was measured and charged. */
  lemma ViewFits(m: Model, replies: seq<Reply>, overlay: Overlay, picked: seq<Selection>)
    requires DistinctInvocations(m.requests) && SortedReplies(replies) && Shortening(replies, overlay)
    requires Lines(m.rows, Flat(m.requests) + picked).Ok? && Lines(m.rows, picked).Ok?
    requires ViewParts(m.rows, m.requests, replies, overlay, Through(m.requests, picked != [])).Ok?
    ensures var parts := ViewParts(m.rows, m.requests, replies, overlay, Through(m.requests, picked != [])).value;
            ByteLen(RenderParts(parts.texts + Lines(m.rows, picked).value)) <=
            ByteLen(Join(Lines(m.rows, Flat(m.requests) + picked).value)) + Charge(replies)
  {
    hide DistinctInvocations, SortedReplies, Shortening, Lines, ViewParts, Flat, RenderParts, Join, ByteLen, Weight, Charge,
      Charged, LastUser;
    var flat, through := Flat(m.requests), Through(m.requests, picked != []);
    ViewTexts(m, replies, overlay, picked);
    ViewWeight(m.rows, m.requests, replies, overlay, through);
    NothingShown(m.rows, m.requests, replies, overlay, through);
    var parts := ViewParts(m.rows, m.requests, replies, overlay, through).value;
    var texts := parts.texts + Lines(m.rows, picked).value;
    WeightConcat(parts.texts, Lines(m.rows, picked).value);
    WeightConcat(Lines(m.rows, flat).value, Lines(m.rows, picked).value);
    ChargedAtMost(replies, parts.shown);
    if texts != [] && parts.shown == [] {
      LinesAreUserLines(m.rows, flat + picked);
    }
    RenderedLength(Lines(m.rows, flat + picked).value, texts, |parts.shown|, Charged(replies, parts.shown));
  }

  /** An accepted view with replies never exceeds the limit, although only the reply-free text was measured. */
  lemma ReplyCaptureFits(m: Model, replies: seq<Reply>, pending: bool, max: nat)
    requires DistinctInvocations(m.requests) && SortedReplies(replies)
    requires CaptureReplies(m, replies, pending, max).Ok?
    ensures |Utf8(CaptureReplies(m, replies, pending, max).value.conversation)| <= max
  {
    hide DistinctInvocations, SortedReplies, Lines, ViewParts, RequestParts, Flat, RenderParts, Join, ByteLen, Charge, FindReply,
      LastUser;
    ReplyTexts(m, replies, pending, max);
    ViewFits(m, replies, PLAIN, CaptureView(m, pending, max).value.pending);
  }

  /** With no replies the reply capture is the plain capture. */
  lemma NoRepliesIsCapture(m: Model, pending: bool, max: nat)
    requires DistinctInvocations(m.requests)
    ensures CaptureReplies(m, [], pending, max) == CaptureView(m, pending, max)
  {
    hide DistinctInvocations, Lines, ViewParts, RequestParts, Flat, Join, ByteLen, LastUser, FindReply;
    if CaptureView(m, pending, max).Ok? {
      ReplyTexts(m, [], pending, max);
      var picked := CaptureView(m, pending, max).value.pending;
      NothingShown(m.rows, m.requests, [], PLAIN, Through(m.requests, picked != []));
      if Lines(m.rows, Flat(m.requests) + picked).value != [] {
        LinesAreUserLines(m.rows, Flat(m.requests) + picked);
      }
    }
  }

  // ----- trailing replies -----

  lemma {:induction false} LastUserSplits(requests: seq<Request>)
    ensures Flat(requests) == [] ==> LastUser(requests) == 0 && forall i | 0 <= i < |requests| :: requests[i].items == []
    ensures Flat(requests) != [] ==>
              LastUser(requests) < |requests| && requests[LastUser(requests)].items != []
              && forall i | LastUser(requests) < i < |requests| :: requests[i].items == []
  {
    if requests != [] {
      var front := Init(requests);
      LastUserSplits(front);
      assert Flat(requests) == Flat(front) + Last(requests).items;
      hide Flat;
      assert forall i | 0 <= i < |front| :: requests[i] == front[i];
    }
  }

  lemma {:induction false} FindReplyExact(replies: seq<Reply>, v: nat)
    ensures FindReply(replies, v).Some? <==> exists i :: 0 <= i < |replies| && replies[i].invocation == v
  {
    if replies != [] {
      FindReplyExact(Init(replies), v);
      assert forall i | 0 <= i < |replies| - 1 :: replies[i] == Init(replies)[i];
    }
  }

  lemma {:induction false} ShownExactly(rows: seq<Row>, requests: seq<Request>, replies: seq<Reply>, all: bool, last: nat, v: nat)
    requires RequestParts(rows, requests, replies, all, last).Ok?
    ensures v in RequestParts(rows, requests, replies, all, last).value.shown <==>
            FindReply(replies, v).Some?
            && exists i :: 0 <= i < |requests| && requests[i].invocation == v && (all || i < last)
  {
    if requests != [] {
      var front := Init(requests);
      ShownExactly(rows, front, replies, all, last, v);
      assert forall i | 0 <= i < |front| :: requests[i] == front[i];
      hide FindReply, Lines;
    }
  }

  /** Some request after the i-th lists inputs. */
  ghost predicate InputsAfter(requests: seq<Request>, i: nat) {
    exists j :: i < j < |requests| && requests[j].items != []
  }

  lemma BeforeLastUser(requests: seq<Request>, i: nat)
    requires i < |requests|
    ensures i < LastUser(requests) <==> InputsAfter(requests, i)
  {
    LastUserSplits(requests);
    if i < LastUser(requests) {
      assert requests[LastUser(requests)].items != [];
    }
  }

  /**
    A view shows exactly the replies of requests before the last one with inputs, or all replies
    when something is pending.
   */
  lemma RepliesShownExactly(m: Model, replies: seq<Reply>, pending: bool, max: nat, v: nat)
    requires CaptureReplies(m, replies, pending, max).Ok?
    ensures var c := CaptureReplies(m, replies, pending, max).value;
            v in c.replies <==>
            (exists k :: 0 <= k < |replies| && replies[k].invocation == v)
            && exists i :: 0 <= i < |m.requests| && m.requests[i].invocation == v
                           && (c.pending != [] || InputsAfter(m.requests, i))
  {
    hide RequestParts, FindReply, LastUser, CaptureView, InputsAfter, Lines, ByteLen, Charge;
    FindReplyExact(replies, v);
    ShownExactly(m.rows, m.requests, replies, CaptureView(m, pending, max).value.pending != [], LastUser(m.requests), v);
    forall i | 0 <= i < |m.requests| ensures i < LastUser(m.requests) <==> InputsAfter(m.requests, i) {
      BeforeLastUser(m.requests, i);
    }
  }

  /** With nothing pending, the request parts end with the last input listed by any request. */
  lemma RequestPartsEnd(rows: seq<Row>, requests: seq<Request>, replies: seq<Reply>)
    requires RequestParts(rows, requests, replies, false, LastUser(requests)).Ok?
    ensures var parts := RequestParts(rows, requests, replies, false, LastUser(requests)).value;
            var flat := Flat(requests);
            && (flat == [] ==> parts == Parts([], []))
            && (flat != [] ==> parts.texts != [] && Exact(rows, Last(flat)).Ok?
                               && Last(parts.texts) == UserLine(Exact(rows, Last(flat)).value))
  {
  }

  /**
    Trailing replies are withheld: a rendered view is empty, or its last part is the line of the
    last included input.
   */
  lemma ViewEndsWithUser(m: Model, replies: seq<Reply>, pending: bool, max: nat)
    requires DistinctInvocations(m.requests) && SortedReplies(replies)
    requires CaptureReplies(m, replies, pending, max).Ok?
    ensures var c := CaptureReplies(m, replies, pending, max).value;
            && (c.included == [] ==> c.conversation == "" && c.replies == [])
            && (c.included != [] ==>
                  exists texts :: texts != [] && c.conversation == RenderParts(texts)
                                  && Exact(m.rows, Last(c.included)).Ok?
                                  && Last(texts) == UserLine(Exact(m.rows, Last(c.included)).value))
  {
    hide RequestParts, FindReply, LastUser, ByteLen, Flat, Charge, DistinctInvocations, SortedReplies;
    ReplyTexts(m, replies, pending, max);
    var c := CaptureReplies(m, replies, pending, max).value;
    var picked := c.pending;
    var parts := RequestParts(m.rows, m.requests, replies, picked != [], LastUser(m.requests)).value;
    var texts := parts.texts + Lines(m.rows, picked).value;
    if picked != [] {
      assert Last(c.included) == Last(picked);
    } else {
      assert c.included == Flat(m.requests) && texts == parts.texts;
      RequestPartsEnd(m.rows, m.requests, replies);
    }
    assert c.conversation == RenderParts(texts);
  }

  /** Every reply names a request of the ledger. */
  predicate RepliesNamed(m: Model, replies: seq<Reply>) {
    forall i | 0 <= i < |replies| :: Named(m.requests, replies[i].invocation)
  }

  /** The reply belongs to some request. */
  ghost predicate Answers(requests: seq<Request>, reply: Reply) {
    exists i :: 0 <= i < |requests| && requests[i].invocation == reply.invocation
  }

  ghost predicate AllAnswer(requests: seq<Request>, replies: seq<Reply>) {
    forall k :: 0 <= k < |replies| ==> Answers(requests, replies[k])
  }

  lemma AllNamed(m: Model, replies: seq<Reply>)
    ensures RepliesNamed(m, replies) <==> AllAnswer(m.requests, replies)
  {
    forall k | 0 <= k < |replies| ensures Named(m.requests, replies[k].invocation) <==> Answers(m.requests, replies[k]) {
    }
  }

  /**
    What the three results say of every run: the outcome is decided by the charge and by whether the
    replies name requests, the limit is respected, and without replies it is the plain capture.
   */
  lemma RunReplyCaptures(start: Model, steps: seq<Step>, replies: seq<Reply>, pending: bool, max: nat)
    requires Inv(start) && SortedReplies(replies)
    ensures var m := RunFrom(start, steps);
            var r := CaptureReplies(m, replies, pending, max);
            var fits := |Utf8(Conversation(m, pending))| + |Utf8(Supplied(replies))| + 32 * |replies| <= max;
            && (r.Ok? <==> fits && AllAnswer(m.requests, replies))
            && (r == Err(Capacity) <==> !fits)
            && (r == Err(InvalidInput) <==> fits && !AllAnswer(m.requests, replies))
            && (r.Ok? ==> |Utf8(r.value.conversation)| <= max)
            && (replies == [] ==> r == CaptureView(m, pending, max))
  {
    hide Inv, RunFrom;
    RunKeepsInvariant(start, steps);
    ReplyCaptureOutcome(RunFrom(start, steps), replies, pending, max);
  }

  lemma ReplyCaptureOutcome(m: Model, replies: seq<Reply>, pending: bool, max: nat)
    requires Inv(m) && SortedReplies(replies)
    ensures var r := CaptureReplies(m, replies, pending, max);
            var fits := |Utf8(Conversation(m, pending))| + |Utf8(Supplied(replies))| + 32 * |replies| <= max;
            && (r.Ok? <==> fits && AllAnswer(m.requests, replies))
            && (r == Err(Capacity) <==> !fits)
            && (r == Err(InvalidInput) <==> fits && !AllAnswer(m.requests, replies))
            && (r.Ok? ==> |Utf8(r.value.conversation)| <= max)
            && (replies == [] ==> r == CaptureView(m, pending, max))
  {
    assert DistinctInvocations(m.requests);
    hide Inv, Conversation, RequestParts, Lines, CaptureView, RenderParts, DistinctInvocations, SortedReplies, LastUser;
    ChargeIs(replies);
    AllNamed(m, replies);
    CaptureFailsOnlyForCapacity(m, pending, max);
    NoRepliesIsCapture(m, pending, max);
    if CaptureView(m, pending, max).Ok? {
      ReplyTexts(m, replies, pending, max);
    }
    if CaptureReplies(m, replies, pending, max).Ok? {
      ReplyCaptureFits(m, replies, pending, max);
    }
  }
}
