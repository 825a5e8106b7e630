/**
  The production plan executor in pages (`operation_plan/execution.rs`).  A
  page ends where its encoded size says so, and a continuation resumes the
  plan.  However the sizes fall out, the pages joined are the interpreter's
  run, step for step and log entry for log entry.
 */
module PlanPages {
  import opened Common
  import opened Plans
  import opened PlanMachine

  /** The nodes before which the next row, or after which the whole page, would not fit. */
  datatype Breaks = Breaks(before: set<nat>, after: set<nat>)

  datatype PageStatus = PageComplete | Final(status: Status) | Rejected

  /** One committed step as a page shows it; the stored output stays readable by its handle. */
  datatype PlanRow = PlanRow(index: nat, failed: bool, output: Option<Outcome>)

  datatype Page = Page(status: PageStatus, rows: seq<PlanRow>, continuation: Option<nat>)

  /** The rows are the steps from `first` on, each with its own outcome or none. */
  ghost predicate RowsShow(rows: seq<PlanRow>, outputs: seq<Outcome>, first: nat) {
    && first + |rows| == |outputs|
    && forall r | 0 <= r < |rows| ::
         && rows[r].index == first + r && rows[r].failed == outputs[first + r].failed
         && (rows[r].output.Some? ==> rows[r].output.value == outputs[first + r])
  }

  function Stripped(rows: seq<PlanRow>): (r: seq<PlanRow>)
    ensures |r| == |rows|
  {
    seq(|rows|, i requires 0 <= i < |rows| => rows[i].(output := None))
  }

  function Cursor(specs: seq<NodeSpec>, done: nat): Option<nat> {
    if done < |specs| then Some(done) else None
  }

  lemma RowsShowMore(rows: seq<PlanRow>, outputs: seq<Outcome>, first: nat, row: PlanRow, outcome: Outcome)
    requires RowsShow(rows, outputs, first)
    requires row.index == |outputs| && row.failed == outcome.failed && (row.output.Some? ==> row.output.value == outcome)
    ensures RowsShow(rows + [row], outputs + [outcome], first)
  {
  }

  lemma RowsShowStripped(rows: seq<PlanRow>, outputs: seq<Outcome>, first: nat)
    requires RowsShow(rows, outputs, first)
    ensures RowsShow(Stripped(rows), outputs, first)
  {
  }

  /** What a page has achieved: it may be resumed, or the plan has ended as the interpreter's does. */
  ghost predicate PageDone(specs: seq<NodeSpec>, payload: nat, stop: Stop, trigger: nat, s: State,
                           before: seq<Outcome>, page: Page, after: seq<Outcome>)
  {
    && before <= after && |after| <= |specs|
    && RowsShow(page.rows, after, |before|) && page.continuation == Cursor(specs, |after|)
    && match page.status
       case PageComplete => |before| < |after| < |specs| && InProgress(specs, payload, stop, trigger, s, after)
       case Final(status) => Ended(specs, payload, stop, trigger, s, after, status, |after|)
       case Rejected => false
  }

  /** Earlier rows of a page show their outputs, unless the page ends by yielding, when none does. */
  ghost predicate OutputsShown(page: Page) {
    if page.status == Final(Yielded) then forall r | 0 <= r < |page.rows| :: page.rows[r].output.None?
    else forall r | 0 <= r < |page.rows| - 1 :: page.rows[r].output.Some?
  }

  datatype NodeStep = Unresolved | NotAdmitted | Ran(outcome: Outcome, flow: Flow)

  /** What one node leads to: the plan goes on, or has ended as the interpreter's does. */
  ghost predicate NodeDone(specs: seq<NodeSpec>, payload: nat, stop: Stop, trigger: nat, s: State, outputs: seq<Outcome>,
                           step: NodeStep)
  {
    match step
    case Unresolved => Ended(specs, payload, stop, trigger, s, outputs, NeedsJudgment, |outputs|)
    case NotAdmitted => Ended(specs, payload, stop, trigger, s, outputs, Yielded, |outputs|)
    case Ran(outcome, flow) =>
      var after := outputs + [outcome];
      if flow != Continue then Ended(specs, payload, stop, trigger, s, after, Yielded, |after|)
      else if outcome.failed then Ended(specs, payload, stop, trigger, s, after, NeedsJudgment, |after|)
      else InProgress(specs, payload, stop, trigger, s, after)
  }

  /** Resolve, admit, execute, complete. */
  method RunNode(specs: seq<NodeSpec>, payload: nat, control: Control, executor: RecordingExecutor, outputs: seq<Outcome>)
    returns (step: NodeStep)
    requires executor.control == control && executor.outputs == Outputs(|specs|, payload) && |outputs| < |specs|
    requires InProgress(specs, payload, control.stop, control.trigger, control.Now(), outputs)
    modifies control
    ensures NodeDone(specs, payload, control.stop, control.trigger, control.Now(), outputs, step)
  {
    hide Output, ErrorOutput, Arguments, ToolName, ProdResolve, InterpretTo, Ended, RoundDone, LogAccepted, InProgress;
    ghost var stop, trigger, s := control.stop, control.trigger, control.Now();
    var index := |outputs|;
    if ProdResolve(specs, index, outputs).None? {
      EndUnresolved(specs, payload, stop, trigger, s, outputs);
      return Unresolved;
    }
    ReadyToAdmit(specs, payload, stop, trigger, s, outputs);
    var flow := Admit(control, index + 1);
    if flow != Continue {
      EndAdmission(specs, payload, trigger, s, control.Now(), outputs);
      return NotAdmitted;
    }
    var outcome;
    outcome, flow := RunAdmitted(specs, payload, outputs, control, executor, s);
    RoundAdvances(specs, payload, stop, trigger, s, outputs, control.Now());
    return Ran(outcome, flow);
  }

  method RunPage(specs: seq<NodeSpec>, payload: nat, control: Control, executor: RecordingExecutor, breaks: Breaks,
                 before: seq<Outcome>)
    returns (page: Page, outputs: seq<Outcome>)
    requires executor.control == control && executor.outputs == Outputs(|specs|, payload)
    requires InProgress(specs, payload, control.stop, control.trigger, control.Now(), before)
    modifies control
    ensures PageDone(specs, payload, control.stop, control.trigger, control.Now(), before, page, outputs)
    ensures OutputsShown(page)
  {
    hide Ended, InProgress, CurrentFlow, Outputs;
    ghost var stop, trigger := control.stop, control.trigger;
    outputs := before;
    var rows: seq<PlanRow> := [];
    CurrentInProgress(specs, payload, stop, trigger, control.Now(), before);
    if CurrentFlow(control.Now()) != Continue {
      return Page(Rejected, [], None), before;
    }
    while |outputs| < |specs|
      invariant InProgress(specs, payload, stop, trigger, control.Now(), outputs) && |outputs| <= |specs|
      invariant before <= outputs && RowsShow(rows, outputs, |before|)
      invariant forall r | 0 <= r < |rows| :: rows[r].output.Some?
      decreases |specs| - |outputs|
    {
      var index := |outputs|;
      if rows != [] && index in breaks.before {
        return Page(PageComplete, rows, Some(index)), outputs;
      }
      var step := RunNode(specs, payload, control, executor, outputs);
      if step.Unresolved? {
        return Page(Final(NeedsJudgment), rows, Some(index)), outputs;
      }
      if step.NotAdmitted? {
        RowsShowStripped(rows, outputs, |before|);
        return Page(Final(Yielded), Stripped(rows), Some(index)), outputs;
      }
      var outcome := step.outcome;
      var shown := rows + [PlanRow(index, outcome.failed, Some(outcome))];
      var committed := rows + [PlanRow(index, outcome.failed, None)];
      RowsShowMore(rows, outputs, |before|, PlanRow(index, outcome.failed, None), outcome);
      RowsShowMore(rows, outputs, |before|, PlanRow(index, outcome.failed, Some(outcome)), outcome);
      outputs := outputs + [outcome];
      if step.flow != Continue {
        RowsShowStripped(committed, outputs, |before|);
        return Page(Final(Yielded), Stripped(committed), Cursor(specs, |outputs|)), outputs;
      }
      if outcome.failed {
        return Page(Final(NeedsJudgment), committed, Cursor(specs, |outputs|)), outputs;
      }
      if index in breaks.after {
        if |outputs| < |specs| {
          return Page(PageComplete, committed, Some(|outputs|)), outputs;
        }
        AllRan(specs, payload, stop, trigger, control.Now(), outputs);
        return Page(Final(Completed), committed, None), outputs;
      }
      rows := shown;
    }
    AllRan(specs, payload, stop, trigger, control.Now(), outputs);
    return Page(Final(Completed), rows, None), outputs;
  }

  lemma CurrentInProgress(specs: seq<NodeSpec>, payload: nat, stop: Stop, trigger: nat, s: State, outputs: seq<Outcome>)
    requires InProgress(specs, payload, stop, trigger, s, outputs)
    ensures CurrentFlow(s) == Continue && |outputs| <= |specs|
  {
    hide InterpretTo;
  }

  lemma ReadyToAdmit(specs: seq<NodeSpec>, payload: nat, stop: Stop, trigger: nat, s: State, outputs: seq<Outcome>)
    requires InProgress(specs, payload, stop, trigger, s, outputs) && |outputs| < |specs|
    ensures CurrentFlow(s) == Continue && Running(s, s.executed) && |s.executed| == |outputs|
  {
    hide InterpretTo;
  }

  // ----- whole plans -----

  function JoinedRows(pages: seq<Page>): seq<PlanRow> {
    if pages == [] then [] else JoinedRows(Init(pages)) + Last(pages).rows
  }

  /** Every page but the last is complete, commits at least one step, and hands on where it stopped. */
  ghost predicate Chained(pages: seq<Page>) {
    |pages| > 1 ==>
      var earlier := Init(pages);
      && Chained(earlier) && Last(earlier).status == PageComplete && Last(earlier).rows != []
      && Last(earlier).continuation == Some(|JoinedRows(earlier)|)
  }

  lemma ChainedMore(pages: seq<Page>, page: Page)
    requires Chained(pages)
    requires pages != [] ==>
               Last(pages).status == PageComplete && Last(pages).rows != []
               && Last(pages).continuation == Some(|JoinedRows(pages)|)
    ensures Chained(pages + [page]) && JoinedRows(pages + [page]) == JoinedRows(pages) + page.rows
  {
    JoinedMore(pages, page);
    hide JoinedRows;
    assert Init(pages + [page]) == pages;
  }

  lemma JoinedMore(pages: seq<Page>, page: Page)
    ensures JoinedRows(pages + [page]) == JoinedRows(pages) + page.rows
  {
    assert Init(pages + [page]) == pages;
  }

  lemma RowsShowJoined(rows: seq<PlanRow>, before: seq<Outcome>, more: seq<PlanRow>, after: seq<Outcome>)
    requires RowsShow(rows, before, 0) && before <= after && RowsShow(more, after, |before|)
    ensures RowsShow(rows + more, after, 0)
  {
  }

  /**
    Paging does not matter: for every way the page sizes fall out, the pages joined commit each step
    once and in order, and end with the interpreter's status, outputs and log; every page that is
    not the last commits a step, so there are at most as many pages as nodes.
   */
  method RunPlan(specs: seq<NodeSpec>, payload: nat, stop: Stop, trigger: nat, breaks: Breaks)
    returns (status: Status, outputs: seq<Outcome>, pages: seq<Page>, control: Control)
    ensures Ended(specs, payload, stop, trigger, control.Now(), outputs, status, |JoinedRows(pages)|)
    ensures RowsShow(JoinedRows(pages), outputs, 0)
    ensures pages != [] && Chained(pages) && Last(pages).status == Final(status)
    ensures forall p | 0 <= p < |pages| :: OutputsShown(pages[p])
    ensures specs != [] ==> |pages| <= |specs|
  {
    hide Output, ErrorOutput, InProgress, Ended, RowsShow, OutputsShown, JoinedRows, Chained;
    control := new Control(stop, trigger);
    var executor := new RecordingExecutor(control, |specs|, payload);
    StartsInProgress(specs, payload, stop, trigger);
    outputs, pages := [], [];
    var page;
    page, outputs := RunPage(specs, payload, control, executor, breaks, outputs);
    FirstPage(page, outputs);
    pages := [page];
    while page.status == PageComplete
      invariant control.stop == stop && control.trigger == trigger && fresh(control) && executor.control == control
      invariant executor.outputs == Outputs(|specs|, payload)
      invariant pages != [] && Last(pages) == page && Chained(pages) && RowsShow(JoinedRows(pages), outputs, 0)
      invariant forall p | 0 <= p < |pages| :: OutputsShown(pages[p])
      invariant |outputs| <= |specs| && page.status != Rejected && page.continuation == Cursor(specs, |outputs|)
      invariant page.status == PageComplete ==>
                  page.rows != [] && |pages| <= |outputs| < |specs|
                  && InProgress(specs, payload, stop, trigger, control.Now(), outputs)
      invariant page.status.Final? ==> Ended(specs, payload, stop, trigger, control.Now(), outputs, page.status.status, |outputs|)
      invariant specs != [] ==> |pages| <= |specs|
      decreases |specs| - |outputs|, page.status == PageComplete
    {
      ghost var earlier, before := pages, outputs;
      JoinedLength(pages, outputs);
      page, outputs := RunPage(specs, payload, control, executor, breaks, outputs);
      pages := pages + [page];
      ChainedMore(earlier, page);
      NextPage(JoinedRows(earlier), before, page, outputs);
    }
    status := page.status.status;
    JoinedLength(pages, outputs);
  }

  lemma FirstPage(page: Page, outputs: seq<Outcome>)
    requires RowsShow(page.rows, outputs, 0)
    ensures JoinedRows([page]) == page.rows && Chained([page]) && |page.rows| == |outputs|
  {
    assert Init([page]) == [];
  }

  lemma NextPage(rows: seq<PlanRow>, before: seq<Outcome>, page: Page, after: seq<Outcome>)
    requires RowsShow(rows, before, 0) && before <= after && RowsShow(page.rows, after, |before|)
    ensures RowsShow(rows + page.rows, after, 0) && |page.rows| == |after| - |before|
  {
    RowsShowJoined(rows, before, page.rows, after);
  }

  lemma JoinedLength(pages: seq<Page>, outputs: seq<Outcome>)
    requires RowsShow(JoinedRows(pages), outputs, 0)
    ensures |JoinedRows(pages)| == |outputs|
  {
  }
}
