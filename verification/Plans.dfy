/**
  The plan interpreter: nodes run in order, each taking its path argument from
  a literal or from an earlier output, until a reference cannot be resolved or
  the configured stop fires.
 */
module Plans {
  import opened Common
  import opened Pointer

  datatype Tool = Read | List | Search

  datatype Reference = Literal | Direct | Array | Escaped | Missing | WrongType

  datatype Stop =
    | NoStop
    | ChildError
    | ExecutorError
    | CancelRun
    | CancelProvider
    | InputChange
    | RevokeRead
    | AdmissionYield
    | CompleteYield
    | CompleteStop

  datatype NodeSpec = NodeSpec(tool: Tool, reference: Reference, source: nat)

  datatype Status = Completed | NeedsJudgment | Yielded

  datatype Call = Call(name: string, arguments: Json)

  datatype Outcome = Outcome(value: Json, failed: bool)

  datatype Expected = Expected(calls: seq<Call>, outputs: seq<Outcome>, status: Status, attempts: nat)

  function ToolName(tool: Tool): string {
    match tool
    case Read => "workspace_read"
    case List => "workspace_list"
    case Search => "workspace_search"
  }

  function ReferencePointer(reference: Reference): Option<string> {
    match reference
    case Literal => None
    case Direct => Some("/next_path")
    case Array => Some("/items/0/path")
    case Escaped => Some("/a~1b/~0key")
    case Missing => Some("/absent")
    case WrongType => Some("/typed")
  }

  function Fixture(index: nat): string {
    "fixture-" + Decimal(index % 20) + ".txt"
  }

  function Repeat(s: string, n: nat): string {
    if n == 0 then "" else Repeat(s, n - 1) + s
  }

  const PAYLOAD_UNIT := "\U{3BC}\U{1F642} line\n"

  function Output(index: nat, payload: nat): Json {
    var next := Str(Fixture(index + 1));
    Obj(map["path" := Str(Fixture(index)), "next_path" := next, "items" := Arr([Obj(map["path" := next])]),
            "a/b" := Obj(map["~key" := next]), "typed" := Number(17), "content" := Str(Repeat(PAYLOAD_UNIT, payload))])
  }

  /** The text a failed dispatch is reported with. */
  const DISPATCH_ERROR := "execute developer tool: fixture dispatch failure"

  function ErrorOutput(error: string): Json {
    Obj(map["error" := Str(error)])
  }

  function Arguments(tool: Tool, path: string): Json {
    Obj(if tool.Search? then map["query" := Str("fixture"), "path" := Str(path)] else map["path" := Str(path)])
  }

  /** The path value of node `index`: a literal, or the referenced part of an earlier successful output. */
  function Resolve(specs: seq<NodeSpec>, index: nat, outputs: seq<Outcome>): Option<Json>
    requires index < |specs|
  {
    if index == 0 || specs[index].reference.Literal? then Some(Str(Fixture(index)))
    else
      var source := specs[index].source % index;
      if source < |outputs| && !outputs[source].failed then
        Evaluate(outputs[source].value, ReferencePointer(specs[index].reference).value)
      else None
  }

  datatype Progress = Progress(expected: Expected, halted: bool)

  /** The body of the loop for one node. */
  function InterpretNode(specs: seq<NodeSpec>, payload: nat, stop: Stop, trigger: nat, e: Expected, index: nat): Progress
    requires index < |specs|
  {
    var path := Resolve(specs, index, e.outputs);
    if path.None? || !path.value.Str? then Progress(e.(status := NeedsJudgment), true)
    else
      var tried := e.(attempts := e.attempts + 1);
      if stop.AdmissionYield? && index == trigger then Progress(tried.(status := Yielded), true)
      else
        var call := Call(ToolName(specs[index].tool), Arguments(specs[index].tool, path.value.s));
        var failed := index == trigger && (stop.ChildError? || stop.ExecutorError?);
        var value := if index == trigger && stop.ExecutorError? then ErrorOutput(DISPATCH_ERROR) else Output(index, payload);
        var done := tried.(calls := tried.calls + [call], outputs := tried.outputs + [Outcome(value, failed)]);
        if index == trigger && !stop.NoStop? && !stop.AdmissionYield?
        then Progress(done.(status := if failed then NeedsJudgment else Yielded), true)
        else Progress(done, false)
  }

  function InterpretTo(specs: seq<NodeSpec>, payload: nat, stop: Stop, trigger: nat, k: nat): Progress
    requires k <= |specs|
  {
    if k == 0 then Progress(Expected([], [], Completed, 0), false)
    else
      var p := InterpretTo(specs, payload, stop, trigger, k - 1);
      if p.halted then p else InterpretNode(specs, payload, stop, trigger, p.expected, k - 1)
  }

  function Interpret(specs: seq<NodeSpec>, payload: nat, stop: Stop, trigger: nat): Expected {
    InterpretTo(specs, payload, stop, trigger, |specs|).expected
  }

  method InterpretLoop(specs: seq<NodeSpec>, payload: nat, stop: Stop, trigger: nat) returns (expected: Expected)
    ensures expected == Interpret(specs, payload, stop, trigger)
  {
    hide Output, Arguments, ToolName, ErrorOutput, Fixture, Evaluate, ReferencePointer;
    expected := Expected([], [], Completed, 0);
    for index := 0 to |specs|
      invariant InterpretTo(specs, payload, stop, trigger, index) == Progress(expected, false)
    {
      var path := Resolve(specs, index, expected.outputs);
      if path.None? || !path.value.Str? {
        expected := expected.(status := NeedsJudgment);
        HaltedStays(specs, payload, stop, trigger, index + 1, |specs|);
        return;
      }
      expected := expected.(attempts := expected.attempts + 1);
      if stop.AdmissionYield? && index == trigger {
        expected := expected.(status := Yielded);
        HaltedStays(specs, payload, stop, trigger, index + 1, |specs|);
        return;
      }
      var call := Call(ToolName(specs[index].tool), Arguments(specs[index].tool, path.value.s));
      expected := expected.(calls := expected.calls + [call]);
      var failed := index == trigger && (stop.ChildError? || stop.ExecutorError?);
      var value := if index == trigger && stop.ExecutorError? then ErrorOutput(DISPATCH_ERROR) else Output(index, payload);
      expected := expected.(outputs := expected.outputs + [Outcome(value, failed)]);
      if index == trigger && !stop.NoStop? && !stop.AdmissionYield? {
        expected := expected.(status := if failed then NeedsJudgment else Yielded);
        HaltedStays(specs, payload, stop, trigger, index + 1, |specs|);
        return;
      }
    }
  }

  lemma {:induction false} HaltedStays(specs: seq<NodeSpec>, payload: nat, stop: Stop, trigger: nat, j: nat, k: nat)
    requires j <= k <= |specs| && InterpretTo(specs, payload, stop, trigger, j).halted
    ensures InterpretTo(specs, payload, stop, trigger, k) == InterpretTo(specs, payload, stop, trigger, j)
  {
    hide InterpretNode;
    if j < k {
      HaltedStays(specs, payload, stop, trigger, j, k - 1);
    }
  }

  // ----- what the references of the fixture mean -----

  lemma KeyPointer(v: Json, key: string)
    requires '~' !in key && '/' !in key
    ensures Evaluate(v, "/" + key) == Child(v, key)
  {
    SplitPlain(key);
    UnescapePlain(key);
    assert ("/" + key)[1..] == key && Init([key]) == [];
    assert Follow(v, [key]) == StepInto(Follow(v, []), key);
  }

  lemma PrintTwo(a: PathStep, b: PathStep)
    ensures Print([a, b]) == "/" + PrintStep(a) + "/" + PrintStep(b)
  {
    var tokens := [PrintStep(a), PrintStep(b)];
    assert PrintSteps([a, b]) == tokens && Init(tokens) == [PrintStep(a)] && Init([PrintStep(a)]) == [];
    assert Unsplit([PrintStep(a)]) == [] + "/" + PrintStep(a) == "/" + PrintStep(a);
  }

  lemma PrintThree(a: PathStep, b: PathStep, c: PathStep)
    ensures Print([a, b, c]) == "/" + PrintStep(a) + "/" + PrintStep(b) + "/" + PrintStep(c)
  {
    PrintTwo(a, b);
    assert Init(PrintSteps([a, b, c])) == PrintSteps([a, b]);
  }

  const ARRAY_PATH := [Key("items"), Index(0), Key("path")]
  const ESCAPED_PATH := [Key("a/b"), Key("~key")]

  lemma PrintedArrayPath()
    ensures Print(ARRAY_PATH) == "/items/0/path"
  {
    hide PrintStep, Print;
    PrintThree(Key("items"), Index(0), Key("path"));
    ArraySteps();
    assert "/" + "items" + "/" == "/items/";
    assert "/items/" + "0" + "/" == "/items/0/";
  }

  lemma ArraySteps()
    ensures PrintStep(Key("items")) == "items" && PrintStep(Index(0)) == "0" && PrintStep(Key("path")) == "path"
  {
    hide Escape, Decimal, DigitsValue;
    EscapePlain("items");
    EscapePlain("path");
    DecimalReads(0);
  }

  lemma PrintedEscapedPath()
    ensures Print(ESCAPED_PATH) == "/a~1b/~0key"
  {
  }

  lemma OutputPaths(i: nat, payload: nat)
    ensures Sub(Output(i, payload), ARRAY_PATH) == Some(Str(Fixture(i + 1)))
    ensures Sub(Output(i, payload), ESCAPED_PATH) == Some(Str(Fixture(i + 1)))
  {
    hide Fixture, Repeat;
    var v := Output(i, payload);
    assert Init(ARRAY_PATH) == [Key("items"), Index(0)];
    assert Init([Key("items"), Index(0)]) == [Key("items")] && Init([Key("items")]) == [];
    assert Sub(v, [Key("items")]) == SubStep(v, Key("items"));
    assert Init(ESCAPED_PATH) == [Key("a/b")] && Init([Key("a/b")]) == [];
    assert Sub(v, [Key("a/b")]) == SubStep(v, Key("a/b"));
  }

  /** The path a node ends up with, read off its specification alone. */
  function PathAt(specs: seq<NodeSpec>, index: nat): Option<string>
    requires index < |specs|
  {
    if index == 0 || specs[index].reference.Literal? then Some(Fixture(index))
    else if specs[index].reference.Missing? || specs[index].reference.WrongType? then None
    else Some(Fixture(specs[index].source % index + 1))
  }

  /** Direct, array and escaped references all read the source's successor; the others never give a path. */
  lemma ReferenceMeaning(reference: Reference, i: nat, payload: nat)
    requires !reference.Literal?
    ensures var v := Evaluate(Output(i, payload), ReferencePointer(reference).value);
            if reference.Missing? then v == None
            else if reference.WrongType? then v == Some(Number(17))
            else v == Some(Str(Fixture(i + 1)))
  {
    hide Evaluate, Output, Fixture;
    match reference
    case Direct => KeyMeaning(i, payload, "next_path"); assert "/next_path" == "/" + "next_path";
    case Array => PathMeaning(i, payload);
    case Escaped => PathMeaning(i, payload);
    case Missing => KeyMeaning(i, payload, "absent"); assert "/absent" == "/" + "absent";
    case WrongType => KeyMeaning(i, payload, "typed"); assert "/typed" == "/" + "typed";
  }

  lemma PathMeaning(i: nat, payload: nat)
    ensures Evaluate(Output(i, payload), "/items/0/path") == Some(Str(Fixture(i + 1)))
    ensures Evaluate(Output(i, payload), "/a~1b/~0key") == Some(Str(Fixture(i + 1)))
  {
    hide Evaluate, Print, Sub, Fixture, Output;
    OutputPaths(i, payload);
    PrintedArrayPath();
    PrintedEscapedPath();
    PointerReadsPrinted(Output(i, payload), ARRAY_PATH);
    PointerReadsPrinted(Output(i, payload), ESCAPED_PATH);
  }

  lemma KeyMeaning(i: nat, payload: nat, key: string)
    requires key in {"next_path", "absent", "typed"}
    ensures Evaluate(Output(i, payload), "/" + key) ==
            if key == "absent" then None else if key == "typed" then Some(Number(17)) else Some(Str(Fixture(i + 1)))
  {
    hide Evaluate, Fixture, Repeat;
    KeyPointer(Output(i, payload), key);
  }

  // ----- the interpreter in closed form -----

  /** Node i ends the run: it has no path, or the stop is set on it. */
  predicate Halts(specs: seq<NodeSpec>, stop: Stop, trigger: nat, i: nat)
    requires i < |specs|
  {
    PathAt(specs, i).None? || (!stop.NoStop? && i == trigger)
  }

  function CallAt(specs: seq<NodeSpec>, i: nat): Call
    requires i < |specs|
  {
    var path := PathAt(specs, i);
    Call(ToolName(specs[i].tool), Arguments(specs[i].tool, if path.Some? then path.value else ""))
  }

  /** The state after k nodes none of which ended the run. */
  function Ahead(specs: seq<NodeSpec>, payload: nat, k: nat): Expected
    requires k <= |specs|
  {
    Expected(seq(k, i requires 0 <= i < k => CallAt(specs, i)),
             seq(k, i requires 0 <= i < k => Outcome(Output(i, payload), false)), Completed, k)
  }

  /** The state in which node h ends the run. */
  function EndedAt(specs: seq<NodeSpec>, payload: nat, stop: Stop, h: nat): Expected
    requires h < |specs|
  {
    var before := Ahead(specs, payload, h);
    if PathAt(specs, h).None? then before.(status := NeedsJudgment)
    else if stop.AdmissionYield? then before.(status := Yielded, attempts := h + 1)
    else
      var failed := stop.ChildError? || stop.ExecutorError?;
      var value := if stop.ExecutorError? then ErrorOutput(DISPATCH_ERROR) else Output(h, payload);
      Expected(before.calls + [CallAt(specs, h)], before.outputs + [Outcome(value, failed)],
               if failed then NeedsJudgment else Yielded, h + 1)
  }

  lemma ResolveAhead(specs: seq<NodeSpec>, payload: nat, k: nat)
    requires k < |specs|
    ensures var path := Resolve(specs, k, Ahead(specs, payload, k).outputs);
            if PathAt(specs, k).Some? then path == Some(Str(PathAt(specs, k).value)) else path.None? || !path.value.Str?
  {
    hide Output, Fixture, Evaluate, ReferencePointer, CallAt, Arguments;
    if k > 0 && !specs[k].reference.Literal? {
      ReferenceMeaning(specs[k].reference, specs[k].source % k, payload);
    }
  }

  lemma {:induction false} RunningAhead(specs: seq<NodeSpec>, payload: nat, stop: Stop, trigger: nat, k: nat)
    requires k <= |specs| && forall i | 0 <= i < k :: !Halts(specs, stop, trigger, i)
    ensures InterpretTo(specs, payload, stop, trigger, k) == Progress(Ahead(specs, payload, k), false)
  {
    hide Halts, Ahead, InterpretNode;
    if k == 0 {
      NobodyAhead(specs, payload);
    } else {
      RunningAhead(specs, payload, stop, trigger, k - 1);
      OneMoreAhead(specs, payload, stop, trigger, k - 1);
    }
  }

  lemma NobodyAhead(specs: seq<NodeSpec>, payload: nat)
    ensures Ahead(specs, payload, 0) == Expected([], [], Completed, 0)
  {
  }

  lemma OneMoreAhead(specs: seq<NodeSpec>, payload: nat, stop: Stop, trigger: nat, k: nat)
    requires k < |specs| && !Halts(specs, stop, trigger, k)
    ensures InterpretNode(specs, payload, stop, trigger, Ahead(specs, payload, k), k) == Progress(Ahead(specs, payload, k + 1), false)
  {
    hide Output, Fixture, Evaluate, ReferencePointer, Arguments, Resolve, ToolName, ErrorOutput;
    ResolveAhead(specs, payload, k);
  }

  /** A run is decided by its first halting node: everything before it ran, and it ends as `EndedAt` says. */
  lemma InterpretIsClosedForm(specs: seq<NodeSpec>, payload: nat, stop: Stop, trigger: nat, h: nat)
    requires h <= |specs| && forall i | 0 <= i < h :: !Halts(specs, stop, trigger, i)
    requires h < |specs| ==> Halts(specs, stop, trigger, h)
    ensures Interpret(specs, payload, stop, trigger) ==
            if h == |specs| then Ahead(specs, payload, h) else EndedAt(specs, payload, stop, h)
  {
    hide Output, Fixture, Evaluate, ReferencePointer, Arguments, Resolve, ToolName, ErrorOutput;
    RunningAhead(specs, payload, stop, trigger, h);
    if h < |specs| {
      ResolveAhead(specs, payload, h);
      assert InterpretTo(specs, payload, stop, trigger, h + 1) == Progress(EndedAt(specs, payload, stop, h), true);
      HaltedStays(specs, payload, stop, trigger, h + 1, |specs|);
    }
  }

  lemma {:induction false} FirstHalt(specs: seq<NodeSpec>, stop: Stop, trigger: nat, k: nat) returns (h: nat)
    requires k <= |specs|
    ensures h <= k && (forall i | 0 <= i < h :: !Halts(specs, stop, trigger, i))
    ensures h < k ==> Halts(specs, stop, trigger, h)
  {
    if k == 0 {
      h := 0;
    } else {
      h := FirstHalt(specs, stop, trigger, k - 1);
      if h == k - 1 && !Halts(specs, stop, trigger, h) {
        h := k;
      }
    }
  }

  /** A stop only cuts a run short: its calls are a prefix of the calls made without it. */
  lemma StopCutsPrefix(specs: seq<NodeSpec>, payload: nat, stop: Stop, trigger: nat, other: nat)
    ensures Interpret(specs, payload, stop, trigger).calls <= Interpret(specs, payload, NoStop, other).calls
  {
    hide Output, CallAt, ErrorOutput, Interpret;
    var h := FirstHalt(specs, stop, trigger, |specs|);
    var g := FirstHalt(specs, NoStop, other, |specs|);
    InterpretIsClosedForm(specs, payload, stop, trigger, h);
    InterpretIsClosedForm(specs, payload, NoStop, other, g);
    assert h < |specs| && h > g ==> !Halts(specs, stop, trigger, g);
    assert h == |specs| && h > g ==> !Halts(specs, stop, trigger, g);
    if h < |specs| && PathAt(specs, h).Some? {
      assert g > h;
    }
  }

  /** Every call that takes a reference reads the path from an earlier, successful output. */
  lemma ReferencesReadEarlierSuccess(specs: seq<NodeSpec>, payload: nat, stop: Stop, trigger: nat, i: nat)
    requires i < |Interpret(specs, payload, stop, trigger).calls| && i < |specs|
    requires i > 0 && !specs[i].reference.Literal?
    ensures var e := Interpret(specs, payload, stop, trigger);
            var source := specs[i].source % i;
            && source < |e.outputs| && !e.outputs[source].failed
            && exists path :: Evaluate(e.outputs[source].value, ReferencePointer(specs[i].reference).value) == Some(Str(path))
                              && e.calls[i] == Call(ToolName(specs[i].tool), Arguments(specs[i].tool, path))
  {
    hide Output, Fixture, Evaluate, ReferencePointer, Arguments, ToolName, ErrorOutput, Interpret;
    var h := FirstHalt(specs, stop, trigger, |specs|);
    InterpretIsClosedForm(specs, payload, stop, trigger, h);
    var source := specs[i].source % i;
    ReferenceMeaning(specs[i].reference, source, payload);
    assert PathAt(specs, i).Some? by { if i < h { assert !Halts(specs, stop, trigger, i); } }
    var e := Interpret(specs, payload, stop, trigger);
    assert e.outputs[source] == Outcome(Output(source, payload), false);
    assert e.calls[i] == CallAt(specs, i);
  }
}
