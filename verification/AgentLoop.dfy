/**
 `executeEphemeral`: the loop that alternates between the language model and its tools, and the strict
 shape it gives to the message history.

 The model, the tools and the guard are unknown functions; the model and the tools may answer
 differently each time they are asked, so they also see when they are asked.
 */
module AgentLoop {
  import opened Wrappers

  datatype ToolCall = ToolCall(id: string, name: string, arguments: string)

  datatype ToolResult = ToolResult(toolCallId: string, content: string, isError: bool)

  datatype Message =
    | SystemMessage(content: string)
    | UserMessage(content: string)
    | AssistantMessage(content: string, toolCalls: seq<ToolCall>)
    | ToolMessage(toolResults: seq<ToolResult>)

  datatype Response = Response(content: string, toolCalls: seq<ToolCall>)

  datatype Env = Env(
    /** The adapter, at its n-th call and for a history. */
    generate: (nat, seq<Message>) -> Result<Response, string>,
    /** A registered tool, in iteration n, for the j-th call of that iteration. */
    execute: (nat, nat, ToolCall) -> Result<string, string>,
    registered: set<string>,
    hasSandbox: bool,
    isSafe: string -> bool,
    violation: string -> string)

  datatype Outcome =
    | Done(content: string)
    | UnsafeInput(description: string)
    | AdapterFailed(iteration: nat, error: string)
    | ToolViolation(error: string)
    | MaxIterationsExceeded

  const MAX_AGENT_ITERATIONS: nat := 10
  const SYSTEM_PROMPT := "You are AetherCore Kernel. Execute the objective using tools."
  const VIOLATION := "security_violation"

  /** `strings.Contains` */
  predicate Contains(s: string, part: string) {
    exists i :: 0 <= i <= |s| && OccursAt(s, part, i)
  }

  predicate OccursAt(s: string, part: string, i: nat)
    requires i <= |s|
  {
    part <= s[i..]
  }

  lemma ContainsMeans(s: string, part: string)
    ensures Contains(s, part) <==> exists before, after :: s == before + part + after
  {
    if Contains(s, part) {
      var i :| 0 <= i <= |s| && OccursAt(s, part, i);
      assert s == s[..i] + part + s[i + |part|..];
    }
    if before, after :| s == before + part + after {
      assert s[|before|..] == part + after;
      assert OccursAt(s, part, |before|);
    }
  }

  // ---------------------------------------------------------------- the tools

  /** `verifyToolOutput` */
  function VerifyToolOutput(env: Env, output: string): Option<string> {
    if env.isSafe(output) then None
    else Some("security_violation_tool_output: " + env.violation(output))
  }

  /** `dispatchTool`: the registry first, then the sandbox, which refuses the empty signature it is sent. */
  function DispatchTool(env: Env, n: nat, j: nat, call: ToolCall): Result<string, string> {
    if call.name in env.registered then
      match env.execute(n, j, call)
      case Err(e) => Err(e)
      case Ok(output) =>
        match VerifyToolOutput(env, output)
        case Some(e) => Err(e)
        case None => Ok(output)
    else if env.hasSandbox then Err("refusing to dispatch unsigned tool via IPC")
    else Err("tool_not_found: " + call.name)
  }

  /** A dispatch that must end the run. */
  predicate Violates(r: Result<string, string>) {
    r.Err? && Contains(r.error, VIOLATION)
  }

  function ToToolResult(call: ToolCall, r: Result<string, string>): ToolResult {
    match r
    case Ok(content) => ToolResult(call.id, content, false)
    case Err(e) => ToolResult(call.id, e, true)
  }

  /** The tool calls from the `j`-th on: their results, or the error of the first violation. */
  function RunTools(env: Env, n: nat, calls: seq<ToolCall>, j: nat): Result<seq<ToolResult>, string>
    requires j <= |calls|
    decreases |calls| - j
  {
    if j == |calls| then Ok([])
    else
      var r := DispatchTool(env, n, j, calls[j]);
      if Violates(r) then Err(r.error)
      else
        match RunTools(env, n, calls, j + 1)
        case Err(e) => Err(e)
        case Ok(rest) => Ok([ToToolResult(calls[j], r)] + rest)
  }

  // ----------------------------------------------------------------- the loop

  /** The run from iteration `n` on: its outcome and the history each adapter call was given. */
  function RunLoop(env: Env, n: nat, messages: seq<Message>): (r: (Outcome, seq<seq<Message>>))
    decreases MAX_AGENT_ITERATIONS + 1 - n
  {
    if n >= MAX_AGENT_ITERATIONS then (MaxIterationsExceeded, [])
    else
      match env.generate(n, messages)
      case Err(e) => (AdapterFailed(n, e), [messages])
      case Ok(res) =>
        if res.toolCalls == [] then (Done(res.content), [messages])
        else
          match RunTools(env, n, res.toolCalls, 0)
          case Err(e) => (ToolViolation(e), [messages])
          case Ok(results) =>
            var (outcome, rest) :=
              RunLoop(env, n + 1, NextHistory(messages, res, results));
            (outcome, [messages] + rest)
  }

  function Opening(input: string): seq<Message> {
    [SystemMessage(SYSTEM_PROMPT), UserMessage(input)]
  }

  function Execute(env: Env, input: string): (Outcome, seq<seq<Message>>) {
    if env.isSafe(input) then RunLoop(env, 0, Opening(input))
    else (UnsafeInput(env.violation(input)), [])
  }

  /** A run that was given some histories before. */
  function Continued(sent: seq<seq<Message>>, r: (Outcome, seq<seq<Message>>)): (Outcome, seq<seq<Message>>) {
    (r.0, sent + r.1)
  }

  lemma ContinuedOnce(sent: seq<seq<Message>>, h: seq<Message>, r: (Outcome, seq<seq<Message>>))
    ensures Continued(sent, Continued([h], r)) == Continued(sent + [h], r)
    ensures Continued([], r) == r
    ensures Continued(sent, (r.0, [])) == (r.0, sent)
  {
    assert sent + ([h] + r.1) == (sent + [h]) + r.1;
    assert [] + r.1 == r.1 && sent + [] == sent;
  }

  function NextHistory(h: seq<Message>, res: Response, results: seq<ToolResult>): seq<Message> {
    h + [AssistantMessage(res.content, res.toolCalls), ToolMessage(results)]
  }

  /** One iteration: either it ends the run or it hands on a longer history. */
  lemma LoopStep(env: Env, n: nat, h: seq<Message>)
    requires n < MAX_AGENT_ITERATIONS
    ensures RunLoop(env, n, h) ==
              match env.generate(n, h)
              case Err(e) => (AdapterFailed(n, e), [h])
              case Ok(res) =>
                if res.toolCalls == [] then (Done(res.content), [h])
                else
                  match RunTools(env, n, res.toolCalls, 0)
                  case Err(e) => (ToolViolation(e), [h])
                  case Ok(results) => Continued([h], RunLoop(env, n + 1, NextHistory(h, res, results)))
  {
    hide RunTools;
  }

  /** `executeEphemeral`, with the histories it sends recorded. */
  method ExecuteEphemeral(env: Env, input: string) returns (outcome: Outcome, sent: seq<seq<Message>>)
    ensures (outcome, sent) == Execute(env, input)
  {
    var messages: seq<Message> := [];
    messages := messages + [SystemMessage(SYSTEM_PROMPT)];
    messages := messages + [UserMessage(input)];
    sent := [];
    if !env.isSafe(input) { return UnsafeInput(env.violation(input)), sent; }
    assert messages == Opening(input);
    ContinuedOnce([], messages, RunLoop(env, 0, messages));
    assert Execute(env, input) == Continued([], RunLoop(env, 0, messages));
    for n := 0 to MAX_AGENT_ITERATIONS
      invariant Execute(env, input) == Continued(sent, RunLoop(env, n, messages))
    {
      hide RunTools, RunLoop, Execute;
      LoopStep(env, n, messages);
      var res := env.generate(n, messages);
      if res.Err? { return AdapterFailed(n, res.error), sent + [messages]; }
      if res.value.toolCalls == [] { return Done(res.value.content), sent + [messages]; }
      var results := ExecuteTools(env, n, res.value.toolCalls);
      if results.Err? { return ToolViolation(results.error), sent + [messages]; }
      var next := messages + [AssistantMessage(res.value.content, res.value.toolCalls)];
      next := next + [ToolMessage(results.value)];
      assert next == NextHistory(messages, res.value, results.value);
      ContinuedOnce(sent, messages, RunLoop(env, n + 1, next));
      sent := sent + [messages];
      messages := next;
    }
    outcome := MaxIterationsExceeded;
    ContinuedOnce(sent, messages, (outcome, []));
  }

  /** The inner loop over the tool calls of one response. */
  method ExecuteTools(env: Env, n: nat, calls: seq<ToolCall>) returns (r: Result<seq<ToolResult>, string>)
    ensures r == RunTools(env, n, calls, 0)
  {
    hide DispatchTool, Contains;
    var results: seq<ToolResult> := [];
    assert RunTools(env, n, calls, 0).Ok? ==>
        [] + RunTools(env, n, calls, 0).value == RunTools(env, n, calls, 0).value;
    for j := 0 to |calls|
      invariant RunTools(env, n, calls, 0) ==
                match RunTools(env, n, calls, j) case Err(e) => Err(e) case Ok(rest) => Ok(results + rest)
    {
      var result := DispatchTool(env, n, j, calls[j]);
      if Violates(result) { return Err(result.error); }
      ghost var later := RunTools(env, n, calls, j + 1);
      if later.Ok? {
        assert results + ([ToToolResult(calls[j], result)] + later.value)
            == (results + [ToToolResult(calls[j], result)]) + later.value;
      }
      results := results + [ToToolResult(calls[j], result)];
    }
    assert results + [] == results;
    r := Ok(results);
  }

  // -------------------------------------------------------- what each turn is

  /**
   What a tool message says of one call. It is no error exactly if the tool is registered, succeeded and
   passed the guard; then it is that output. Otherwise it is the tool's own error, the refusal of the
   sandbox or the report that there is no such tool.
   */
  predicate AnswersCall(env: Env, n: nat, j: nat, call: ToolCall, result: ToolResult) {
    var known := call.name in env.registered;
    var executed := env.execute(n, j, call);
    && result.toolCallId == call.id
    && (!result.isError <==> known && executed.Ok? && env.isSafe(executed.value))
    && result.content == (
         if known then (if executed.Ok? then executed.value else executed.error)
         else if env.hasSandbox then "refusing to dispatch unsigned tool via IPC"
         else "tool_not_found: " + call.name)
    && (known && executed.Ok? ==> env.isSafe(executed.value))
    && (result.isError ==> !Contains(result.content, "security_violation"))
  }

  /** The results answer the calls one to one and in order. */
  predicate Answers(env: Env, n: nat, calls: seq<ToolCall>, results: seq<ToolResult>) {
    && |results| == |calls|
    && forall j :: 0 <= j < |calls| ==> AnswersCall(env, n, j, calls[j], results[j])
  }

  /** The error with which this call ends the run, if it does: output the guard rejects, or an error that says so. */
  function ViolationOf(env: Env, n: nat, j: nat, call: ToolCall): Option<string> {
    if call.name in env.registered then
      match env.execute(n, j, call)
      case Ok(output) =>
        if env.isSafe(output) then None else Some("security_violation_tool_output: " + env.violation(output))
      case Err(e) => if Contains(e, "security_violation") then Some(e) else None
    else if env.hasSandbox then None
    else
      var e := "tool_not_found: " + call.name;
      if Contains(e, "security_violation") then Some(e) else None
  }

  /** Call `k` is the first to end the run, and ends it with `e`. */
  predicate FirstViolation(env: Env, n: nat, calls: seq<ToolCall>, k: nat, e: string) {
    && k < |calls|
    && ViolationOf(env, n, k, calls[k]) == Some(e)
    && forall j :: 0 <= j < k ==> ViolationOf(env, n, j, calls[j]) == None
  }

  lemma OccurrenceStarts(s: string, part: string, i: nat)
    requires i <= |s| && |part| >= 2 && OccursAt(s, part, i)
    ensures i + 1 < |s| && s[i] == part[0] && s[i + 1] == part[1]
  {
    assert s[i..][0] == s[i] && s[i..][1] == s[i + 1];
  }

  lemma NoSuchPair(s: string, part: string)
    requires |part| >= 2 && forall i :: 0 <= i < |s| - 1 ==> !(s[i] == part[0] && s[i + 1] == part[1])
    ensures !Contains(s, part)
  {
    if Contains(s, part) {
      var i :| 0 <= i <= |s| && OccursAt(s, part, i);
      OccurrenceStarts(s, part, i);
    }
  }

  /** The refusal holds no "se". */
  lemma RefusalIsNoViolation()
    ensures !Contains("refusing to dispatch unsigned tool via IPC", VIOLATION)
  {
    hide Contains;
    NoSuchPair("refusing to dispatch unsigned tool via IPC", VIOLATION);
  }

  lemma VerdictIsViolation(reason: string)
    ensures Contains("security_violation_tool_output: " + reason, VIOLATION)
  {
    var e := "security_violation_tool_output: " + reason;
    assert e[0..] == e && VIOLATION <= "security_violation_tool_output: ";
    assert OccursAt(e, VIOLATION, 0);
  }

  /** A dispatch either ends the run with a violation or is answered. */
  lemma DispatchEndsOrAnswers(env: Env, n: nat, j: nat, call: ToolCall)
    ensures var r, v := DispatchTool(env, n, j, call), ViolationOf(env, n, j, call);
            if Violates(r) then v == Some(r.error) else v == None && AnswersCall(env, n, j, call, ToToolResult(call, r))
  {
    RefusalIsNoViolation();
    var executed := env.execute(n, j, call);
    if executed.Ok? { VerdictIsViolation(env.violation(executed.value)); }
    hide Contains;
  }

  lemma {:induction false} ResultCount(env: Env, n: nat, calls: seq<ToolCall>, j: nat)
    requires j <= |calls| && RunTools(env, n, calls, j).Ok?
    ensures |RunTools(env, n, calls, j).value| == |calls| - j
    decreases |calls| - j
  {
    hide DispatchTool, Violates, ToToolResult;
    if j < |calls| { ResultCount(env, n, calls, j + 1); }
  }

  lemma {:induction false} ToolsAnswer(env: Env, n: nat, calls: seq<ToolCall>, j: nat, k: nat)
    requires j <= k < |calls| && RunTools(env, n, calls, j).Ok?
    ensures |RunTools(env, n, calls, j).value| == |calls| - j
    ensures RunTools(env, n, calls, j).value[k - j] == ToToolResult(calls[k], DispatchTool(env, n, k, calls[k]))
    ensures !Violates(DispatchTool(env, n, k, calls[k]))
    decreases k - j
  {
    hide DispatchTool, Violates, ToToolResult;
    ResultCount(env, n, calls, j);
    if j < k {
      ToolsAnswer(env, n, calls, j + 1, k);
      assert RunTools(env, n, calls, j).value[k - j] == RunTools(env, n, calls, j + 1).value[k - (j + 1)];
    }
  }

  /** If no call ends the run, the results answer the calls. */
  lemma ResultsAnswerCalls(env: Env, n: nat, calls: seq<ToolCall>)
    requires RunTools(env, n, calls, 0).Ok?
    ensures Answers(env, n, calls, RunTools(env, n, calls, 0).value)
  {
    hide Contains, AnswersCall, DispatchTool, Violates, ToToolResult, RunTools;
    ResultCount(env, n, calls, 0);
    var results := RunTools(env, n, calls, 0).value;
    forall j | 0 <= j < |calls|
      ensures AnswersCall(env, n, j, calls[j], results[j])
    {
      ToolsAnswer(env, n, calls, 0, j);
      DispatchEndsOrAnswers(env, n, j, calls[j]);
    }
  }

  lemma {:induction false} StopsAtViolation(env: Env, n: nat, calls: seq<ToolCall>, j: nat, k: nat)
    requires j <= k < |calls| && ViolationOf(env, n, k, calls[k]).Some?
    requires forall i :: j <= i < k ==> ViolationOf(env, n, i, calls[i]) == None
    ensures RunTools(env, n, calls, j) == Err(ViolationOf(env, n, k, calls[k]).value)
    decreases k - j
  {
    hide DispatchTool, Violates, ViolationOf, AnswersCall, ToToolResult;
    DispatchEndsOrAnswers(env, n, j, calls[j]);
    if j < k { StopsAtViolation(env, n, calls, j + 1, k); }
  }

  lemma {:induction false} RunsThrough(env: Env, n: nat, calls: seq<ToolCall>, j: nat)
    requires j <= |calls| && forall i :: j <= i < |calls| ==> ViolationOf(env, n, i, calls[i]) == None
    ensures RunTools(env, n, calls, j).Ok?
    decreases |calls| - j
  {
    hide DispatchTool, Violates, ViolationOf, AnswersCall, ToToolResult;
    if j < |calls| {
      DispatchEndsOrAnswers(env, n, j, calls[j]);
      RunsThrough(env, n, calls, j + 1);
    }
  }

  lemma {:induction false} FindViolation(env: Env, n: nat, calls: seq<ToolCall>, j: nat) returns (k: nat)
    requires j <= |calls|
    ensures j <= k <= |calls| && forall i :: j <= i < k ==> ViolationOf(env, n, i, calls[i]) == None
    ensures k < |calls| ==> ViolationOf(env, n, k, calls[k]).Some?
    decreases |calls| - j
  {
    hide ViolationOf;
    if j == |calls| || ViolationOf(env, n, j, calls[j]).Some? {
      k := j;
    } else {
      k := FindViolation(env, n, calls, j + 1);
    }
  }

  /** The tool calls of one turn end the run exactly with the first violation among them. */
  lemma ToolsStopOnViolation(env: Env, n: nat, calls: seq<ToolCall>, e: string)
    ensures RunTools(env, n, calls, 0) == Err(e) <==> exists k :: FirstViolation(env, n, calls, k, e)
    ensures RunTools(env, n, calls, 0).Ok? <==>
              forall k :: 0 <= k < |calls| ==> ViolationOf(env, n, k, calls[k]) == None
  {
    hide ViolationOf, RunTools;
    var k := FindViolation(env, n, calls, 0);
    if k < |calls| {
      StopsAtViolation(env, n, calls, 0, k);
      assert FirstViolation(env, n, calls, k, ViolationOf(env, n, k, calls[k]).value);
    } else {
      RunsThrough(env, n, calls, 0);
    }
  }

  // ------------------------------------------------------- the whole history

  /** After `n` turns: system, user, then n pairs of what the model asked and what its tools answered. */
  predicate HasShape(env: Env, input: string, n: nat, h: seq<Message>) {
    && |h| == 2 + 2 * n
    && h[0] == SystemMessage("You are AetherCore Kernel. Execute the objective using tools.")
    && h[1] == UserMessage(input)
    && forall i :: 0 <= i < n ==> IsTurn(env, h, i)
  }

  predicate IsTurn(env: Env, h: seq<Message>, i: nat)
    requires 2 + 2 * i + 1 < |h|
  {
    && h[2 + 2 * i].AssistantMessage?
    && h[2 + 2 * i].toolCalls != []
    && env.generate(i, h[..2 + 2 * i]) == Ok(Response(h[2 + 2 * i].content, h[2 + 2 * i].toolCalls))
    && h[3 + 2 * i].ToolMessage?
    && Answers(env, i, h[2 + 2 * i].toolCalls, h[3 + 2 * i].toolResults)
  }

  lemma ShapeGrows(env: Env, input: string, n: nat, h: seq<Message>, a: Message, t: Message)
    requires HasShape(env, input, n, h)
    requires a.AssistantMessage? && a.toolCalls != [] && t.ToolMessage?
    requires env.generate(n, h) == Ok(Response(a.content, a.toolCalls))
    requires Answers(env, n, a.toolCalls, t.toolResults)
    ensures HasShape(env, input, n + 1, h + [a, t])
  {
    hide Answers;
    var g := h + [a, t];
    forall i | 0 <= i < n + 1
      ensures IsTurn(env, g, i)
    {
      assert g[..2 + 2 * i] == h[..2 + 2 * i];
      if i == n {
        assert h[..2 + 2 * n] == h;
      } else {
        assert IsTurn(env, h, i);
      }
    }
  }

  /** Every history the adapter is given has the shape of its turn and extends the one before. */
  lemma {:induction false} LoopKeepsShape(env: Env, input: string, n: nat, h: seq<Message>)
    requires n <= MAX_AGENT_ITERATIONS && HasShape(env, input, n, h)
    ensures var sent := RunLoop(env, n, h).1;
            && |sent| <= MAX_AGENT_ITERATIONS - n
            && (sent != [] ==> sent[0] == h)
            && (forall k :: 0 <= k < |sent| ==> HasShape(env, input, n + k, sent[k]))
            && (forall k :: 0 < k < |sent| ==> sent[k - 1] < sent[k])
    decreases MAX_AGENT_ITERATIONS - n
  {
    hide HasShape, Answers, RunTools;
    if n < MAX_AGENT_ITERATIONS && env.generate(n, h).Ok? {
      var res := env.generate(n, h).value;
      if res.toolCalls != [] && RunTools(env, n, res.toolCalls, 0).Ok? {
        ResultsAnswerCalls(env, n, res.toolCalls);
        var a, t := AssistantMessage(res.content, res.toolCalls), ToolMessage(RunTools(env, n, res.toolCalls, 0).value);
        ShapeGrows(env, input, n, h, a, t);
        LoopKeepsShape(env, input, n + 1, h + [a, t]);
        ShapesInFront(env, input, n, h, RunLoop(env, n + 1, h + [a, t]).1);
      }
    }
  }

  lemma ShapesInFront(env: Env, input: string, n: nat, h: seq<Message>, rest: seq<seq<Message>>)
    requires HasShape(env, input, n, h) && (rest != [] ==> h < rest[0])
    requires forall k :: 0 <= k < |rest| ==> HasShape(env, input, n + 1 + k, rest[k])
    requires forall k :: 0 < k < |rest| ==> rest[k - 1] < rest[k]
    ensures var sent := [h] + rest;
            && (forall k :: 0 <= k < |sent| ==> HasShape(env, input, n + k, sent[k]))
            && (forall k :: 0 < k < |sent| ==> sent[k - 1] < sent[k])
  {
    hide HasShape;
    var sent := [h] + rest;
    forall k | 0 <= k < |sent|
      ensures HasShape(env, input, n + k, sent[k])
    {
      if k > 0 { assert sent[k] == rest[k - 1] && n + 1 + (k - 1) == n + k; }
    }
    forall k | 0 < k < |sent|
      ensures sent[k - 1] < sent[k]
    {
      if k > 1 { assert sent[k - 1] == rest[k - 2] && sent[k] == rest[k - 1]; }
    }
  }

  /**
   At the k-th adapter call, of at most ten, the history is system, user and k turns, and it extends
   every earlier one. The adapter is not called at all just when the guard rejects the input.
   */
  lemma HistoryShape(env: Env, input: string)
    ensures var sent := Execute(env, input).1;
            && |sent| <= 10
            && (forall k :: 0 <= k < |sent| ==> HasShape(env, input, k, sent[k]))
            && (forall k :: 0 < k < |sent| ==> sent[k - 1] < sent[k])
            && (sent == [] <==> !env.isSafe(input))
            && (!env.isSafe(input) ==> Execute(env, input).0 == UnsafeInput(env.violation(input)))
  {
    var h := Opening(input);
    LoopKeepsShape(env, input, 0, h);
    hide HasShape;
    var sent := RunLoop(env, 0, h).1;
    forall k | 0 <= k < |sent|
      ensures HasShape(env, input, k, sent[k])
    {
      assert 0 + k == k;
    }
  }

  /** How the answer to the last history decides the outcome. */
  ghost predicate Decides(env: Env, n: nat, last: seq<Message>, outcome: Outcome) {
    match env.generate(n, last)
    case Err(e) => outcome == AdapterFailed(n, e)
    case Ok(res) =>
      if res.toolCalls == [] then outcome == Done(res.content)
      else if NoViolation(env, n, res.toolCalls) then outcome == MaxIterationsExceeded && n == 9
      else outcome.ToolViolation? && exists k :: FirstViolation(env, n, res.toolCalls, k, outcome.error)
  }

  predicate NoViolation(env: Env, n: nat, calls: seq<ToolCall>) {
    forall k :: 0 <= k < |calls| ==> ViolationOf(env, n, k, calls[k]) == None
  }

  /** An answer after which the loop goes on: tools were asked for and none violated. */
  predicate GoesOn(env: Env, n: nat, h: seq<Message>) {
    && env.generate(n, h).Ok?
    && env.generate(n, h).value.toolCalls != []
    && NoViolation(env, n, env.generate(n, h).value.toolCalls)
  }

  /** How the tool calls of an answer turn out. */
  lemma ToolsOfAnswer(env: Env, n: nat, h: seq<Message>)
    requires env.generate(n, h).Ok?
    ensures var calls := env.generate(n, h).value.toolCalls;
            var r := RunTools(env, n, calls, 0);
            && (r.Ok? <==> NoViolation(env, n, calls))
            && (r.Err? ==> exists k :: FirstViolation(env, n, calls, k, r.error))
  {
    hide RunTools, ViolationOf;
    var calls := env.generate(n, h).value.toolCalls;
    var r := RunTools(env, n, calls, 0);
    ToolsStopOnViolation(env, n, calls, if r.Err? then r.error else "");
  }

  /** Every answer but the last makes the loop go on, and the last alone decides the outcome. */
  lemma {:induction false} LastAnswerDecides(env: Env, n: nat, h: seq<Message>)
    requires n < MAX_AGENT_ITERATIONS
    ensures var (outcome, sent) := RunLoop(env, n, h);
            && sent != []
            && Decides(env, n + |sent| - 1, sent[|sent| - 1], outcome)
            && (forall k :: 0 <= k < |sent| - 1 ==> GoesOn(env, n + k, sent[k]))
    decreases MAX_AGENT_ITERATIONS - n
  {
    hide RunTools, NoViolation, FirstViolation;
    if env.generate(n, h).Ok? { ToolsOfAnswer(env, n, h); }
    if GoesOn(env, n, h) {
      var res := env.generate(n, h).value;
      var next := NextHistory(h, res, RunTools(env, n, res.toolCalls, 0).value);
      var (outcome, sent) := RunLoop(env, n, h);
      var rest := RunLoop(env, n + 1, next).1;
      assert sent == [h] + rest;
      if n + 1 < MAX_AGENT_ITERATIONS {
        LastAnswerDecides(env, n + 1, next);
        hide GoesOn, Decides, RunLoop;
        assert sent[|sent| - 1] == rest[|rest| - 1] && n + |sent| - 1 == n + 1 + |rest| - 1;
        forall k | 0 <= k < |sent| - 1
          ensures GoesOn(env, n + k, sent[k])
        {
          if k > 0 { assert sent[k] == rest[k - 1] && n + 1 + (k - 1) == n + k; }
        }
      } else {
        assert rest == [];
      }
    }
  }

  /**
   No guard rejection is survived: if any tool call of an answer yields output the guard rejects, the
   run ends there with a violation, and no model ever sees a later history.
   */
  lemma RejectedOutputEndsTheRun(env: Env, input: string, n: nat, j: nat)
    requires env.isSafe(input) && n < |Execute(env, input).1|
    requires env.generate(n, Execute(env, input).1[n]).Ok?
    requires j < |env.generate(n, Execute(env, input).1[n]).value.toolCalls|
    requires var call := env.generate(n, Execute(env, input).1[n]).value.toolCalls[j];
             call.name in env.registered && env.execute(n, j, call).Ok? && !env.isSafe(env.execute(n, j, call).value)
    ensures var (outcome, sent) := Execute(env, input);
            outcome.ToolViolation? && |sent| == n + 1
  {
    hide RunLoop, RunTools, DispatchTool, Violates;
    var sent := Execute(env, input).1;
    var calls := env.generate(n, sent[n]).value.toolCalls;
    assert ViolationOf(env, n, j, calls[j]).Some?;
    LastAnswerDecides(env, 0, Opening(input));
    assert !GoesOn(env, 0 + n, sent[n]);
  }
}
