/**
  The admit/execute/complete protocol and its log, the direct sequential
  replay of an interpreted plan, and the production page loop.  The control
  object fires the configured stop once, after the triggering node.
 */
module PlanMachine {
  import opened Common
  import opened Pointer
  import opened Plans

  datatype Flow = Continue | Yield | StopFlow

  /** The ways a step of the protocol or of the replay is refused. */
  datatype Fault =
    | BadAdmission
    | ChangedIdentity
    | OutOfStep
    | Unauthorised
    | DispatchFailure
    | ExtraDispatch
    | RejectedCall
    | OutputDiffers
    | CallsDiffer

  /** The texts of the executor's own errors; the others are never rendered. */
  function FaultText(fault: Fault): string {
    match fault
    case OutOfStep => "child executed without fresh admission/completion ordering"
    case Unauthorised => "ordinary executor observed revoked authority"
    case DispatchFailure => "fixture dispatch failure"
    case ExtraDispatch => "unexpected extra child dispatch"
    case _ => ""
  }

  /** An executor error as the observation it becomes. */
  function FaultOutcome(fault: Fault): Outcome {
    Outcome(ErrorOutput("execute developer tool: " + FaultText(fault)), true)
  }

  lemma DispatchFaultOutcome()
    ensures FaultOutcome(DispatchFailure) == Outcome(ErrorOutput(DISPATCH_ERROR), true)
  {
    hide ErrorOutput;
    assert "execute developer tool: " + "fixture dispatch failure" == DISPATCH_ERROR;
  }

  datatype Fallible<+T> = Fine(value: T) | Failed(error: Fault)

  /** The observable state of `Control`, its log included. */
  datatype State = State(
    revision: nat, read: bool, cancelled: bool, provider: bool,
    admitted: seq<nat>, completed: seq<nat>, bindings: map<nat, string>,
    events: seq<(bool, string)>, executed: seq<Call>, activated: seq<Stop>)

  const INPUT_REVISION := 7
  const FRESH := State(INPUT_REVISION, true, false, false, [], [], map[], [], [], [])

  class Control {
    const stop: Stop
    const trigger: nat
    var revision: nat
    var read: bool
    var cancelled: bool
    var provider: bool
    var admitted: seq<nat>
    var completed: seq<nat>
    var bindings: map<nat, string>
    /** true marks a start event, false a finish event. */
    var events: seq<(bool, string)>
    var executed: seq<Call>
    var activated: seq<Stop>

    constructor (stop: Stop, trigger: nat)
      ensures this.stop == stop && this.trigger == trigger && Now() == FRESH
    {
      this.stop, this.trigger := stop, trigger;
      revision, read, cancelled, provider := INPUT_REVISION, true, false, false;
      admitted, completed, bindings, events, executed, activated := [], [], map[], [], [], [];
    }

    function Now(): State
      reads this
    {
      State(revision, read, cancelled, provider, admitted, completed, bindings, events, executed, activated)
    }

    method AfterExecute(index: nat)
      modifies this
      ensures Now() == Fire(old(Now()), stop, trigger, index)
    {
      if index != trigger {
        return;
      }
      match stop {
        case CancelRun => cancelled := true;
        case CancelProvider => provider := true;
        case InputChange => revision := revision + 1;
        case RevokeRead => read := false;
        case _ =>
      }
      if Revokes(stop) {
        activated := activated + [stop];
      }
    }

    method AdmitTool(writer: bool, invocation: string, sequence: nat, inputRevision: nat, readOnly: bool)
      returns (r: Fallible<Flow>)
      modifies this
      ensures r.Failed? <==> !writer || !readOnly || inputRevision != old(revision)
      ensures r.Failed? ==> Now() == old(Now())
      ensures r.Fine? ==>
                var fires := stop.AdmissionYield? && sequence == trigger + 1;
                && r.value == (if fires then Yield else Continue)
                && Now() == old(Now()).(admitted := old(admitted) + [sequence],
                                        bindings := old(bindings)[sequence := invocation],
                                        activated := old(activated) + if fires then [stop] else [])
    {
      if !writer || !readOnly || inputRevision != revision {
        return Failed(BadAdmission);
      }
      admitted := admitted + [sequence];
      bindings := bindings[sequence := invocation];
      if stop.AdmissionYield? && sequence == trigger + 1 {
        activated := activated + [AdmissionYield];
        return Fine(Yield);
      }
      return Fine(Continue);
    }

    method CompleteTool(invocation: string, sequence: nat) returns (r: Fallible<Flow>)
      modifies this
      ensures r.Failed? <==> !(sequence in old(bindings) && old(bindings)[sequence] == invocation)
      ensures r.Failed? ==> Now() == old(Now())
      ensures r.Fine? ==>
                var halts := (stop.CompleteYield? || stop.CompleteStop?) && sequence == trigger + 1;
                && r.value == (if !halts then Continue else if stop.CompleteYield? then Yield else StopFlow)
                && Now() == old(Now()).(completed := old(completed) + [sequence],
                                        activated := old(activated) + if halts then [stop] else [])
    {
      if !(sequence in bindings && bindings[sequence] == invocation) {
        return Failed(ChangedIdentity);
      }
      completed := completed + [sequence];
      r := Fine(Continue);
      if sequence == trigger + 1 {
        match stop {
          case CompleteYield => activated := activated + [CompleteYield]; r := Fine(Yield);
          case CompleteStop => activated := activated + [CompleteStop]; r := Fine(StopFlow);
          case _ =>
        }
      }
    }

    method Observe(start: bool, name: string)
      modifies this
      ensures Now() == old(Now()).(events := old(events) + [(start, name)])
    {
      events := events + [(start, name)];
    }
  }

  /** Stops that withdraw authority once the triggering node has executed. */
  predicate Revokes(stop: Stop) {
    stop.CancelRun? || stop.CancelProvider? || stop.InputChange? || stop.RevokeRead?
  }

  function Fire(s: State, stop: Stop, trigger: nat, index: nat): State {
    if index != trigger || !Revokes(stop) then s
    else
      s.(cancelled := s.cancelled || stop.CancelRun?, provider := s.provider || stop.CancelProvider?,
         revision := if stop.InputChange? then s.revision + 1 else s.revision,
         read := s.read && !stop.RevokeRead?, activated := s.activated + [stop])
  }

  /** An executor may run a call only right after its admission, with every earlier call completed. */
  predicate InStep(s: State) {
    s.admitted != [] && Last(s.admitted) == |s.executed| + 1 && |s.completed| == |s.executed|
  }

  predicate Authorised(s: State) {
    s.read && !s.cancelled && !s.provider
  }

  function Outputs(count: nat, payload: nat): seq<Json> {
    seq(count, i requires 0 <= i < count => Output(i, payload))
  }

  class RecordingExecutor {
    const control: Control
    const outputs: seq<Json>

    constructor (control: Control, count: nat, payload: nat)
      ensures this.control == control
      ensures outputs == Outputs(count, payload)
    {
      this.control := control;
      this.outputs := Outputs(count, payload);
    }

    method Execute(call: Call) returns (r: Fallible<Outcome>)
      modifies control
      ensures var s := old(control.Now());
              var index := |s.executed|;
              if !InStep(s) then r == Failed(OutOfStep) && control.Now() == s
              else if !Authorised(s) then r == Failed(Unauthorised) && control.Now() == s
              else
                var ran := Fire(s.(executed := s.executed + [call]), control.stop, control.trigger, index);
                if index == control.trigger && control.stop.ExecutorError? then
                  r == Failed(DispatchFailure) && control.Now() == ran.(activated := ran.activated + [ExecutorError])
                else if index >= |outputs| then r == Failed(ExtraDispatch) && control.Now() == ran
                else
                  var failed := index == control.trigger && control.stop.ChildError?;
                  r == Fine(Outcome(outputs[index], failed))
                  && control.Now() == if failed then ran.(activated := ran.activated + [ChildError]) else ran
    {
      var index := |control.executed|;
      if control.admitted == [] || Last(control.admitted) != index + 1 || |control.completed| != index {
        return Failed(OutOfStep);
      }
      if !control.read || control.cancelled || control.provider {
        return Failed(Unauthorised);
      }
      control.executed := control.executed + [call];
      control.AfterExecute(index);
      if index == control.trigger && control.stop.ExecutorError? {
        control.activated := control.activated + [ExecutorError];
        return Failed(DispatchFailure);
      }
      if index >= |outputs| {
        return Failed(ExtraDispatch);
      }
      var failed := index == control.trigger && control.stop.ChildError?;
      if failed {
        control.activated := control.activated + [ChildError];
      }
      return Fine(Outcome(outputs[index], failed));
    }
  }

  // ----- what the log must say -----

  /** 1, 2, ..., n. */
  function UpTo(n: nat): seq<nat> {
    seq(n, i => i + 1)
  }

  function Events(calls: seq<Call>): seq<(bool, string)> {
    if calls == [] then [] else Events(Init(calls)) + [(true, Last(calls).name), (false, Last(calls).name)]
  }

  predicate StopReached(e: Expected, stop: Stop, trigger: nat) {
    match stop
    case NoStop => false
    case AdmissionYield => e.attempts > trigger
    case _ => |e.calls| > trigger
  }

  /** The check of the execution log against the interpreted plan. */
  predicate LogAccepted(s: State, e: Expected, hostCalls: nat, stop: Stop, trigger: nat) {
    && s.activated == (if StopReached(e, stop, trigger) then [stop] else [])
    && s.executed == e.calls
    && s.completed == UpTo(|e.calls|)
    && s.admitted == UpTo(e.attempts)
    && hostCalls == |e.calls|
    && s.events == Events(e.calls)
  }

  /**
    The log check entry by entry: as many admissions as attempts and as many executions and
    completions as calls, each numbered by its step; a start and a finish event for every call, in
    order; and the stop exactly once when it was reached, else nothing.
   */
  lemma LogAcceptedExactly(s: State, e: Expected, hostCalls: nat, stop: Stop, trigger: nat)
    ensures LogAccepted(s, e, hostCalls, stop, trigger) <==>
            && |s.admitted| == e.attempts && (forall i | 0 <= i < e.attempts :: s.admitted[i] == i + 1)
            && |s.executed| == |s.completed| == hostCalls == |e.calls|
            && (forall i | 0 <= i < |e.calls| :: s.executed[i] == e.calls[i] && s.completed[i] == i + 1)
            && |s.events| == 2 * |e.calls|
            && (forall i | 0 <= i < |e.calls| ::
                  s.events[2 * i] == (true, e.calls[i].name) && s.events[2 * i + 1] == (false, e.calls[i].name))
            && s.activated == if (stop.AdmissionYield? && e.attempts > trigger)
                                 || (!stop.AdmissionYield? && !stop.NoStop? && |e.calls| > trigger) then [stop] else []
  {
    EventsExactly(e.calls, s.events);
  }

  lemma {:induction false} EventsExactly(calls: seq<Call>, events: seq<(bool, string)>)
    ensures events == Events(calls) <==> EventsOf(calls, events)
  {
    hide EventsOf;
    if calls == [] || |events| < 2 {
      NoEvents(calls, events);
    }
    if calls != [] && |events| >= 2 {
      var front, rest := Init(calls), events[..|events| - 2];
      EventsExactly(front, rest);
      EventsFront(front, Last(calls), rest, events[|events| - 2], events[|events| - 1]);
      assert calls == front + [Last(calls)];
      assert events == rest + [events[|events| - 2], events[|events| - 1]];
      EventsLast(Events(front), (true, Last(calls).name), (false, Last(calls).name), rest, events[|events| - 2], events[|events| - 1]);
    }
  }

  lemma NoEvents(calls: seq<Call>, events: seq<(bool, string)>)
    requires calls == [] || |events| < 2
    ensures events == Events(calls) <==> EventsOf(calls, events)
  {
  }

  ghost predicate EventsOf(calls: seq<Call>, events: seq<(bool, string)>) {
    && |events| == 2 * |calls|
    && forall i | 0 <= i < |calls| :: events[2 * i] == (true, calls[i].name) && events[2 * i + 1] == (false, calls[i].name)
  }

  lemma EventsFront(calls: seq<Call>, call: Call, events: seq<(bool, string)>, a: (bool, string), b: (bool, string))
    ensures EventsOf(calls + [call], events + [a, b]) <==>
            EventsOf(calls, events) && a == (true, call.name) && b == (false, call.name)
  {
    var all, more := calls + [call], events + [a, b];
    if EventsOf(all, more) {
      assert all[|calls|] == call && more[2 * |calls|] == a && more[2 * |calls| + 1] == b;
      forall i | 0 <= i < |calls| ensures events[2 * i] == (true, calls[i].name) && events[2 * i + 1] == (false, calls[i].name) {
        assert all[i] == calls[i] && more[2 * i] == events[2 * i] && more[2 * i + 1] == events[2 * i + 1];
      }
    }
    if EventsOf(calls, events) && a == (true, call.name) && b == (false, call.name) {
      forall i | 0 <= i < |all| ensures more[2 * i] == (true, all[i].name) && more[2 * i + 1] == (false, all[i].name) {
        assert i < |calls| ==> more[2 * i] == events[2 * i] && more[2 * i + 1] == events[2 * i + 1];
      }
    }
  }

  lemma EventsLast<T>(x: seq<T>, u: T, v: T, y: seq<T>, a: T, b: T)
    ensures x + [u, v] == y + [a, b] <==> x == y && u == a && v == b
  {
    var s, t := x + [u, v], y + [a, b];
    if s == t {
      assert x == s[..|s| - 2] && y == t[..|t| - 2];
      assert u == s[|s| - 2] && v == s[|s| - 1] && a == t[|t| - 2] && b == t[|t| - 1];
    }
  }

  /**
    A stop that fires after its node leaves exactly one trace: cancellations stop the plan, a changed
    input or a revoked permission makes it yield, and each sets only its own flag.
   */
  lemma FireWithdraws(s: State, stop: Stop, trigger: nat)
    requires Authorised(s) && s.revision == INPUT_REVISION && Revokes(stop)
    ensures var n := Fire(s, stop, trigger, trigger);
            && CurrentFlow(n) == (if stop.CancelRun? || stop.CancelProvider? then StopFlow else Yield)
            && (n.cancelled <==> stop.CancelRun?) && (n.provider <==> stop.CancelProvider?)
            && (n.revision != s.revision <==> stop.InputChange?) && (!n.read <==> stop.RevokeRead?)
            && n.executed == s.executed && n.activated == s.activated + [stop]
  {
  }

  /** No stop has fired yet: full authority, the three counters in step, nothing activated. */
  ghost predicate Running(s: State, calls: seq<Call>) {
    && Authorised(s) && s.revision == INPUT_REVISION && s.activated == []
    && s.admitted == UpTo(|calls|) && s.completed == UpTo(|calls|) && s.executed == calls
  }

  // ----- the production loop -----

  const INVOCATION := "inspection-plan"

  /** `resolve`: every dependency succeeded, and the referenced value exists and is a path. */
  function ProdResolve(specs: seq<NodeSpec>, index: nat, outputs: seq<Outcome>): Option<string>
    requires index < |specs|
  {
    if index == 0 || specs[index].reference.Literal? then Some(Fixture(index))
    else
      var source := specs[index].source % index;
      if source >= |outputs| || outputs[source].failed then None
      else
        match Evaluate(outputs[source].value, ReferencePointer(specs[index].reference).value)
        case Some(Str(path)) => Some(path)
        case _ => None
  }

  /** `current`: cancellation stops, lost permission or changed input yields. */
  function CurrentFlow(s: State): Flow {
    if s.cancelled || s.provider then StopFlow
    else if !s.read || s.revision != INPUT_REVISION then Yield
    else Continue
  }

  method Admit(control: Control, sequence: nat) returns (flow: Flow)
    modifies control
    ensures var s := old(control.Now());
            if CurrentFlow(s) != Continue then flow == CurrentFlow(s) && control.Now() == s
            else
              var fires := control.stop.AdmissionYield? && sequence == control.trigger + 1;
              && flow == (if fires then Yield else Continue)
              && control.Now() == s.(admitted := s.admitted + [sequence], bindings := s.bindings[sequence := INVOCATION],
                                     activated := s.activated + if fires then [AdmissionYield] else [])
  {
    flow := CurrentFlow(control.Now());
    if flow == Continue {
      var admitted := control.AdmitTool(true, INVOCATION, sequence, INPUT_REVISION, true);
      flow := admitted.value;
    }
  }

  method Complete(control: Control, sequence: nat) returns (flow: Flow)
    requires sequence in control.bindings && control.bindings[sequence] == INVOCATION
    modifies control
    ensures var s := old(control.Now());
            var fires := (control.stop.CompleteYield? || control.stop.CompleteStop?) && sequence == control.trigger + 1;
            && flow == (if fires then (if control.stop.CompleteYield? then Yield else StopFlow) else CurrentFlow(s))
            && control.Now() == s.(completed := s.completed + [sequence],
                                   activated := s.activated + if fires then [control.stop] else [])
  {
    var completed := control.CompleteTool(INVOCATION, sequence);
    flow := completed.value;
    if flow == Continue {
      flow := CurrentFlow(control.Now());
    }
  }

  /** Executes one admitted call; an executor error becomes a failed outcome. */
  method ExecuteChild(control: Control, executor: RecordingExecutor, call: Call, payload: nat) returns (outcome: Outcome)
    requires executor.control == control && InStep(control.Now()) && Authorised(control.Now())
    requires |control.executed| < |executor.outputs|
    requires executor.outputs[|control.executed|] == Output(|control.executed|, payload)
    modifies control
    ensures var s := old(control.Now());
            var index, at := |s.executed|, |s.executed| == control.trigger;
            && outcome == OutcomeAt(payload, control.stop, control.trigger, index)
            && control.Now() == Fire(s.(executed := s.executed + [call]), control.stop, control.trigger, index)
                                .(activated := s.activated + if at && FiresOnExecution(control.stop) then [control.stop] else [])
  {
    hide Output, FaultOutcome, ErrorOutput;
    DispatchFaultOutcome();
    var ran := executor.Execute(call);
    outcome := if ran.Fine? then ran.value else FaultOutcome(ran.error);
  }

  predicate FiresOnExecution(stop: Stop) {
    Revokes(stop) || stop.ChildError? || stop.ExecutorError?
  }

  /** The outcome the interpreter expects of node `index`. */
  function OutcomeAt(payload: nat, stop: Stop, trigger: nat, index: nat): Outcome {
    Outcome(if index == trigger && stop.ExecutorError? then ErrorOutput(DISPATCH_ERROR) else Output(index, payload),
            index == trigger && (stop.ChildError? || stop.ExecutorError?))
  }

  lemma ResolveAgrees(specs: seq<NodeSpec>, index: nat, outputs: seq<Outcome>)
    requires index < |specs|
    ensures var path := Resolve(specs, index, outputs);
            ProdResolve(specs, index, outputs) == if path.Some? && path.value.Str? then Some(path.value.s) else None
  {
  }

  lemma EventsGrow(calls: seq<Call>, call: Call)
    ensures Events(calls + [call]) == Events(calls) + [(true, call.name)] + [(false, call.name)]
  {
  }

  lemma UpToGrows(n: nat)
    ensures UpTo(n) + [n + 1] == UpTo(n + 1)
  {
  }

  /** The loop has not halted: the interpreter has run the same nodes, and the log is in step. */
  ghost predicate InProgress(specs: seq<NodeSpec>, payload: nat, stop: Stop, trigger: nat, s: State, outputs: seq<Outcome>) {
    && |s.executed| == |outputs| <= |specs| && Running(s, s.executed) && s.events == Events(s.executed)
    && InterpretTo(specs, payload, stop, trigger, |outputs|) == Progress(Expected(s.executed, outputs, Completed, |outputs|), false)
    && (stop.NoStop? || |outputs| <= trigger)
  }

  /** The loop has ended as the interpreter does, and its log passes the check. */
  ghost predicate Ended(specs: seq<NodeSpec>, payload: nat, stop: Stop, trigger: nat, s: State,
                        outputs: seq<Outcome>, status: Status, hostCalls: nat)
  {
    var e := Interpret(specs, payload, stop, trigger);
    status == e.status && outputs == e.outputs && LogAccepted(s, e, hostCalls, stop, trigger)
  }

  lemma EndUnresolved(specs: seq<NodeSpec>, payload: nat, stop: Stop, trigger: nat, s: State, outputs: seq<Outcome>)
    requires InProgress(specs, payload, stop, trigger, s, outputs) && |outputs| < |specs|
    requires ProdResolve(specs, |outputs|, outputs).None?
    ensures Ended(specs, payload, stop, trigger, s, outputs, NeedsJudgment, |outputs|)
  {
    hide Output, ErrorOutput, Arguments, ToolName, Resolve, ProdResolve;
    ResolveAgrees(specs, |outputs|, outputs);
    HaltedStays(specs, payload, stop, trigger, |outputs| + 1, |specs|);
  }

  lemma EndAdmission(specs: seq<NodeSpec>, payload: nat, trigger: nat, s: State, s': State, outputs: seq<Outcome>)
    requires InProgress(specs, payload, AdmissionYield, trigger, s, outputs) && |outputs| < |specs|
    requires ProdResolve(specs, |outputs|, outputs).Some? && |outputs| == trigger
    requires s' == s.(admitted := s.admitted + [|outputs| + 1], bindings := s'.bindings, activated := s.activated + [AdmissionYield])
    ensures Ended(specs, payload, AdmissionYield, trigger, s', outputs, Yielded, |outputs|)
  {
    hide Output, ErrorOutput, Arguments, ToolName, Resolve, ProdResolve;
    ResolveAgrees(specs, |outputs|, outputs);
    UpToGrows(|outputs|);
    HaltedStays(specs, payload, AdmissionYield, trigger, |outputs| + 1, |specs|);
  }

  /** The call, outcome and log state after one full round. */
  ghost predicate RoundDone(specs: seq<NodeSpec>, payload: nat, stop: Stop, trigger: nat, s: State, outputs: seq<Outcome>, s': State)
    requires |outputs| < |specs|
  {
    var index, path := |outputs|, ProdResolve(specs, |outputs|, outputs);
    && path.Some?
    && !(stop.AdmissionYield? && index == trigger)
    && var call := Call(ToolName(specs[index].tool), Arguments(specs[index].tool, path.value));
       && s'.executed == s.executed + [call]
       && s'.admitted == s.admitted + [index + 1] && s'.completed == s.completed + [index + 1]
       && s'.events == s.events + [(true, call.name)] + [(false, call.name)]
       && s'.activated == (if index == trigger && !stop.NoStop? then s.activated + [stop] else s.activated)
       && (index != trigger || stop.NoStop? ==> Authorised(s') && s'.revision == INPUT_REVISION)
  }

  /** The same round in the interpreter. */
  lemma InterpretRound(specs: seq<NodeSpec>, payload: nat, stop: Stop, trigger: nat, calls: seq<Call>, outputs: seq<Outcome>)
    requires |outputs| < |specs|
    requires InterpretTo(specs, payload, stop, trigger, |outputs|) == Progress(Expected(calls, outputs, Completed, |outputs|), false)
    requires ProdResolve(specs, |outputs|, outputs).Some? && !(stop.AdmissionYield? && |outputs| == trigger)
    ensures var index, path := |outputs|, ProdResolve(specs, |outputs|, outputs);
            var call := Call(ToolName(specs[index].tool), Arguments(specs[index].tool, path.value));
            var outcome := OutcomeAt(payload, stop, trigger, index);
            var halts := index == trigger && !stop.NoStop?;
            InterpretTo(specs, payload, stop, trigger, index + 1) ==
            Progress(Expected(calls + [call], outputs + [outcome],
                              if !halts then Completed else if outcome.failed then NeedsJudgment else Yielded, index + 1), halts)
  {
    hide Output, ErrorOutput, Arguments, ToolName, Resolve, ProdResolve;
    ResolveAgrees(specs, |outputs|, outputs);
  }

  lemma RoundAdvances(specs: seq<NodeSpec>, payload: nat, stop: Stop, trigger: nat, s: State, outputs: seq<Outcome>, s': State)
    requires |outputs| < |specs| && InProgress(specs, payload, stop, trigger, s, outputs)
    requires RoundDone(specs, payload, stop, trigger, s, outputs, s')
    ensures var index := |outputs|;
            var outcome := OutcomeAt(payload, stop, trigger, index);
            if index == trigger && !stop.NoStop? then
              Ended(specs, payload, stop, trigger, s', outputs + [outcome],
                    if outcome.failed then NeedsJudgment else Yielded, index + 1)
            else InProgress(specs, payload, stop, trigger, s', outputs + [outcome]) && !outcome.failed
  {
    hide Output, ErrorOutput, Arguments, ToolName, ProdResolve, InterpretTo, InterpretNode;
    var index := |outputs|;
    InterpretRound(specs, payload, stop, trigger, s.executed, outputs);
    UpToGrows(index);
    EventsGrow(s.executed, Last(s'.executed));
    assert s'.executed == s.executed + [Last(s'.executed)];
    if index == trigger && !stop.NoStop? {
      HaltedStays(specs, payload, stop, trigger, index + 1, |specs|);
    }
  }

  /** An admitted round runs its call to completion; the flow says whether the plan may go on. */
  method RunAdmitted(specs: seq<NodeSpec>, payload: nat, outputs: seq<Outcome>, control: Control, executor: RecordingExecutor,
                     ghost s: State)
    returns (outcome: Outcome, flow: Flow)
    requires |outputs| < |specs| && ProdResolve(specs, |outputs|, outputs).Some? && executor.control == control
    requires |executor.outputs| == |specs| && executor.outputs[|outputs|] == Output(|outputs|, payload)
    requires Running(s, s.executed) && |s.executed| == |outputs|
    requires !(control.stop.AdmissionYield? && |outputs| == control.trigger)
    requires control.Now() == s.(admitted := s.admitted + [|outputs| + 1], bindings := s.bindings[|outputs| + 1 := INVOCATION])
    modifies control
    ensures RoundDone(specs, payload, control.stop, control.trigger, s, outputs, control.Now())
    ensures outcome == OutcomeAt(payload, control.stop, control.trigger, |outputs|)
    ensures flow != Continue <==>
            |outputs| == control.trigger && !control.stop.NoStop? && !control.stop.ChildError? && !control.stop.ExecutorError?
  {
    hide Output, ErrorOutput, Arguments, ToolName, ProdResolve, OutcomeAt;
    var index := |outputs|;
    var path := ProdResolve(specs, index, outputs);
    var call := Call(ToolName(specs[index].tool), Arguments(specs[index].tool, path.value));
    control.Observe(true, call.name);
    outcome := ExecuteChild(control, executor, call, payload);
    control.Observe(false, call.name);
    flow := Complete(control, index + 1);
  }

  lemma StartsInProgress(specs: seq<NodeSpec>, payload: nat, stop: Stop, trigger: nat)
    ensures InProgress(specs, payload, stop, trigger, FRESH, [])
  {
  }

  lemma AllRan(specs: seq<NodeSpec>, payload: nat, stop: Stop, trigger: nat, s: State, outputs: seq<Outcome>)
    requires InProgress(specs, payload, stop, trigger, s, outputs) && |outputs| == |specs|
    ensures Ended(specs, payload, stop, trigger, s, outputs, Completed, |outputs|)
  {
  }

  // ----- direct sequential replay -----

  /** What the interpreter promises of its i-th call: the expected outcome, and a firing stop only at the end. */
  lemma ExpectedShape(specs: seq<NodeSpec>, payload: nat, stop: Stop, trigger: nat)
    ensures var e := Interpret(specs, payload, stop, trigger);
            && |e.outputs| == |e.calls| <= |specs|
            && (forall i | 0 <= i < |e.calls| :: e.outputs[i] == OutcomeAt(payload, stop, trigger, i))
            && (!stop.NoStop? && trigger < |e.calls| ==> !stop.AdmissionYield? && trigger + 1 == |e.calls|)
  {
    hide Output, ErrorOutput, Arguments, ToolName, Interpret, CallAt;
    var h := FirstHalt(specs, stop, trigger, |specs|);
    InterpretIsClosedForm(specs, payload, stop, trigger, h);
    if trigger < h {
      assert !Halts(specs, stop, trigger, trigger);
    }
  }

  const DIRECT := "direct-sequential-fixture"

  /** After i replayed calls the three counters agree, and authority lasts as long as calls remain. */
  ghost predicate InStepAt(s: State, e: Expected, i: nat) {
    && i <= |e.calls| && s.executed == e.calls[..i] && s.admitted == UpTo(i) && s.completed == UpTo(i)
    && (i < |e.calls| ==> Authorised(s) && s.revision == INPUT_REVISION)
  }

  /** What an interpreted plan promises the replay about its outcomes and about where a stop can fire. */
  ghost predicate Replayable(e: Expected, outputs: seq<Json>, stop: Stop, trigger: nat) {
    && |outputs| == |e.calls| == |e.outputs|
    && (forall i | 0 <= i < |e.calls| ::
          e.outputs[i] == if i == trigger && stop.ExecutorError? then FaultOutcome(DispatchFailure)
                          else Outcome(outputs[i], i == trigger && stop.ChildError?))
    && (!stop.NoStop? && trigger < |e.calls| ==> !stop.AdmissionYield? && trigger + 1 == |e.calls|)
  }

  /** One call of the replay: admitted, executed as expected, completed. */
  method ReplayCall(expected: Expected, control: Control, executor: RecordingExecutor, index: nat) returns (r: Fallible<Unit>)
    requires index < |expected.calls| == |expected.outputs| && executor.control == control
    modifies control
    ensures InStepAt(old(control.Now()), expected, index)
            && Replayable(expected, executor.outputs, control.stop, control.trigger)
            ==> r.Fine? && InStepAt(control.Now(), expected, index + 1)
  {
    hide FaultOutcome;
    ghost var before := control.Now();
    var call := expected.calls[index];
    var admitted := control.AdmitTool(true, DIRECT, index + 1, INPUT_REVISION, true);
    if admitted.Failed? {
      return Failed(admitted.error);
    }
    if admitted.value != Continue {
      return Failed(RejectedCall);
    }
    var observation := executor.Execute(call);
    var outcome := if observation.Fine? then observation.value else FaultOutcome(observation.error);
    if outcome != expected.outputs[index] {
      return Failed(OutputDiffers);
    }
    var completed := control.CompleteTool(DIRECT, index + 1);
    if completed.Failed? {
      return Failed(completed.error);
    }
    UpToGrows(index);
    assert expected.calls[..index + 1] == expected.calls[..index] + [call];
    return Fine(Unit);
  }

  /** The independent replay accepts every interpreted plan, and then has executed exactly its calls. */
  method DirectReplay(expected: Expected, stop: Stop, trigger: nat, payload: nat, ghost specs: seq<NodeSpec>)
    returns (r: Fallible<Unit>, control: Control)
    requires |expected.calls| == |expected.outputs|
    ensures expected == Interpret(specs, payload, stop, trigger) ==> r.Fine?
    ensures r.Fine? ==> control.executed == expected.calls
  {
    hide Output, ErrorOutput, Interpret, FaultOutcome, Replayable;
    control := new Control(stop, trigger);
    var executor := new RecordingExecutor(control, |expected.calls|, payload);
    ghost var interpreted := expected == Interpret(specs, payload, stop, trigger);
    InterpretedIsReplayable(specs, payload, stop, trigger);
    assert UpTo(0) == [];
    for index := 0 to |expected.calls|
      invariant control.stop == stop && control.trigger == trigger && fresh(control) && executor.control == control
      invariant interpreted ==> Replayable(expected, executor.outputs, stop, trigger)
      invariant interpreted ==> InStepAt(control.Now(), expected, index)
    {
      var replayed := ReplayCall(expected, control, executor, index);
      if replayed.Failed? {
        return replayed, control;
      }
    }
    if control.executed != expected.calls {
      return Failed(CallsDiffer), control;
    }
    return Fine(Unit), control;
  }

  lemma InterpretedIsReplayable(specs: seq<NodeSpec>, payload: nat, stop: Stop, trigger: nat)
    ensures var e := Interpret(specs, payload, stop, trigger);
            Replayable(e, Outputs(|e.calls|, payload), stop, trigger)
  {
    hide Output, ErrorOutput, Interpret, FaultOutcome;
    ExpectedShape(specs, payload, stop, trigger);
    DispatchFaultOutcome();
  }
}
