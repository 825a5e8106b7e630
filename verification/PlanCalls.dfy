/**
  What a plan calls, argument by argument, and what each call answers, read
  off the JSON values themselves.
 */
module PlanCalls {
  import opened Common
  import opened Pointer
  import opened Plans

  /** The literal path of node i. */
  function LiteralPath(i: nat): string {
    "fixture-" + Decimal(i % 20) + ".txt"
  }

  ghost predicate NamesTool(name: string, tool: Tool) {
    match tool
    case Read => name == "workspace_read"
    case List => name == "workspace_list"
    case Search => name == "workspace_search"
  }

  /** A path and, for a search only, the fixed query; nothing else. */
  ghost predicate TakesPath(arguments: Json, tool: Tool, path: Json) {
    && arguments.Obj?
    && arguments.fields.Keys == (if tool.Search? then {"path", "query"} else {"path"})
    && Child(arguments, "path") == Some(path)
    && (tool.Search? ==> Child(arguments, "query") == Some(Str("fixture")))
  }

  /** What a reference reads from an earlier output. */
  function Referenced(reference: Reference, output: Json): Option<Json> {
    match reference
    case Direct => Evaluate(output, "/next_path")
    case Array => Evaluate(output, "/items/0/path")
    case Escaped => Evaluate(output, "/a~1b/~0key")
    case Missing => Evaluate(output, "/absent")
    case WrongType => Evaluate(output, "/typed")
    case Literal => None
  }

  lemma ArgumentsTake(tool: Tool, path: string)
    ensures TakesPath(Arguments(tool, path), tool, Str(path))
  {
  }

  lemma NodeOfCall(specs: seq<NodeSpec>, payload: nat, stop: Stop, trigger: nat, i: nat)
    requires i < |Interpret(specs, payload, stop, trigger).calls|
    ensures i < |specs| && PathAt(specs, i).Some?
    ensures Interpret(specs, payload, stop, trigger).calls[i] ==
            Call(ToolName(specs[i].tool), Arguments(specs[i].tool, PathAt(specs, i).value))
  {
    hide Output, Fixture, Arguments, ToolName, ErrorOutput, Interpret;
    var h := FirstHalt(specs, stop, trigger, |specs|);
    InterpretIsClosedForm(specs, payload, stop, trigger, h);
    if i < h {
      assert !Halts(specs, stop, trigger, i);
    }
  }

  /**
    Every call of every run: the tool's name, the query exactly for searches, and as path either the
    node's literal or the value its reference reads from an earlier, successful output.
   */
  lemma CallsAreExact(specs: seq<NodeSpec>, payload: nat, stop: Stop, trigger: nat, i: nat)
    requires i < |Interpret(specs, payload, stop, trigger).calls|
    ensures i < |specs|
    ensures var e := Interpret(specs, payload, stop, trigger);
            var call, node := e.calls[i], specs[i];
            && NamesTool(call.name, node.tool)
            && if i == 0 || node.reference.Literal? then TakesPath(call.arguments, node.tool, Str(LiteralPath(i)))
               else
                 var source := node.source % i;
                 && source < |e.outputs| && !e.outputs[source].failed
                 && Referenced(node.reference, e.outputs[source].value).Some?
                 && Referenced(node.reference, e.outputs[source].value).value.Str?
                 && TakesPath(call.arguments, node.tool, Referenced(node.reference, e.outputs[source].value).value)
  {
    NodeOfCall(specs, payload, stop, trigger, i);
    ArgumentsTake(specs[i].tool, PathAt(specs, i).value);
    if i > 0 && !specs[i].reference.Literal? {
      ReferencesReadEarlierSuccess(specs, payload, stop, trigger, i);
      SourceReads(specs, payload, stop, trigger, i);
    }
    hide Evaluate, Arguments, Interpret, TakesPath;
  }

  lemma SourceReads(specs: seq<NodeSpec>, payload: nat, stop: Stop, trigger: nat, i: nat)
    requires i < |Interpret(specs, payload, stop, trigger).calls| && i < |specs|
    requires i > 0 && !specs[i].reference.Literal? && PathAt(specs, i).Some?
    ensures var e := Interpret(specs, payload, stop, trigger);
            var source := specs[i].source % i;
            && source < |e.outputs|
            && Referenced(specs[i].reference, e.outputs[source].value) == Some(Str(PathAt(specs, i).value))
  {
    hide Output, Fixture, Evaluate, Arguments, ToolName, ErrorOutput, Interpret;
    var h := FirstHalt(specs, stop, trigger, |specs|);
    InterpretIsClosedForm(specs, payload, stop, trigger, h);
    ReferenceMeaning(specs[i].reference, specs[i].source % i, payload);
  }

  // ----- outputs -----

  /** The content is the eight characters of the unit over and over. */
  lemma {:induction false} ContentIs(payload: nat)
    ensures var text := Repeat(PAYLOAD_UNIT, payload);
            |text| == 8 * payload && forall j | 0 <= j < |text| :: text[j] == "\U{3BC}\U{1F642} line\n"[j % 8]
  {
    if payload > 0 {
      ContentIs(payload - 1);
      var front := Repeat(PAYLOAD_UNIT, payload - 1);
      forall j | |front| <= j < |front| + 8 ensures j % 8 == j - |front| {
      }
    }
  }

  /** The output of step i: its own path, its successor's path in three places, a number, and the content. */
  ghost predicate AnswersAs(value: Json, i: nat, payload: nat) {
    && value.Obj?
    && value.fields.Keys == {"path", "next_path", "items", "a/b", "typed", "content"}
    && Evaluate(value, "/path") == Some(Str(LiteralPath(i)))
    && Evaluate(value, "/next_path") == Some(Str(LiteralPath(i + 1)))
    && Evaluate(value, "/items/0/path") == Some(Str(LiteralPath(i + 1)))
    && Evaluate(value, "/a~1b/~0key") == Some(Str(LiteralPath(i + 1)))
    && Evaluate(value, "/typed") == Some(Number(17))
    && match Evaluate(value, "/content")
       case Some(Str(text)) =>
         |text| == 8 * payload && forall j | 0 <= j < |text| :: text[j] == "\U{3BC}\U{1F642} line\n"[j % 8]
       case _ => false
  }

  lemma OutputAnswers(i: nat, payload: nat)
    ensures AnswersAs(Output(i, payload), i, payload)
  {
    var v := Output(i, payload);
    hide Evaluate, Repeat;
    ContentIs(payload);
    PathMeaning(i, payload);
    KeyPointer(v, "path");
    KeyPointer(v, "next_path");
    KeyPointer(v, "typed");
    KeyPointer(v, "content");
    assert "/" + "path" == "/path" && "/" + "next_path" == "/next_path";
    assert "/" + "typed" == "/typed" && "/" + "content" == "/content";
  }

  /** Every output of every run: it failed exactly on a triggered child or dispatch error, and says what its step says. */
  lemma OutputsAreExact(specs: seq<NodeSpec>, payload: nat, stop: Stop, trigger: nat, i: nat)
    requires i < |Interpret(specs, payload, stop, trigger).outputs|
    ensures var outcome := Interpret(specs, payload, stop, trigger).outputs[i];
            && (outcome.failed <==> i == trigger && (stop.ChildError? || stop.ExecutorError?))
            && if i == trigger && stop.ExecutorError? then
                 outcome.value == Obj(map["error" := Str("execute developer tool: fixture dispatch failure")])
               else AnswersAs(outcome.value, i, payload)
  {
    hide Output, CallAt, AnswersAs, Interpret;
    var h := FirstHalt(specs, stop, trigger, |specs|);
    InterpretIsClosedForm(specs, payload, stop, trigger, h);
    OutputAnswers(i, payload);
    if i < h {
      assert !Halts(specs, stop, trigger, i);
    }
  }
}
