/**
  The compiler from schema to IR, and the cross-file theorem that whatever the schema
  validator accepts and the compiler compiles, the IR's own validator accepts as well.
 */
module Compiler {
  import opened Wrappers
  import opened Graphs
  import opened Strings
  import opened Schema
  import opened Validator
  import opened Workflows
  import DependencyGraph

  datatype EngineConfig = EngineConfig(
    maxSteps: nat, finishedChannelSize: nat, maxConcurrentNodes: nat,
    defaultRetryBaseDelayMs: nat, defaultRetryMaxDelayMs: nat)

  datatype ParseError = InvalidYaml | InvalidDuration(text: string)

  predicate IsAlphanumeric(c: char) {
    'a' <= c <= 'z' || 'A' <= c <= 'Z' || '0' <= c <= '9'
  }

  predicate IsPathChar(c: char) {
    IsAlphanumeric(c) || c == '.' || c == '_'
  }

  // `s` is one `{{ ... }}` with no other `{{` inside.
  predicate IsBraced(s: string) {
    |s| >= 4 && "{{" <= s && EndsWith(s, "}}") && !Contains(s[2..|s| - 2], "{{")
  }

  // `value_to_expr`
  function ValueToExpr(value: Json): Expr {
    match value
    case JStr(s) =>
      if IsBraced(s) then
        var inner := Trim(s[2..|s| - 2]);
        if forall i :: 0 <= i < |inner| ==> IsPathChar(inner[i]) then Ref(inner) else Template(s)
      else if Contains(s, "{{") && Contains(s, "}}") then Template(s)
      else Literal(s)
    case _ => JsonExpr(value)
  }

  function CompileFields(fields: seq<(string, Json)>): (input: seq<(string, Expr)>)
    ensures |input| == |fields|
    ensures forall i :: 0 <= i < |fields| ==> input[i] == (fields[i].0, ValueToExpr(fields[i].1))
  {
    seq(|fields|, i requires 0 <= i < |fields| => (fields[i].0, ValueToExpr(fields[i].1)))
  }

  function CompileInput(node: NodeSchema): seq<(string, Expr)> {
    match node.with_
    case Some(JObj(fields)) => CompileFields(fields)
    case _ =>
      if node.do_.None? && node.return_.Some? then [("__return__", ValueToExpr(node.return_.value))] else []
  }

  // ---- Edges ----

  function BranchCondition(branch: ThenBranch): Option<string> {
    if branch.else_ then None else branch.when_
  }

  // Branches from position `i` on; a branch without a target emits no edge.
  function BranchEdges(branches: seq<ThenBranch>, i: nat): seq<StepEdge>
    requires i <= |branches|
    decreases |branches| - i
  {
    if i == |branches| then []
    else
      (if branches[i].Target().Some? then
         [StepEdge(ToStep(branches[i].Target().value), BranchCondition(branches[i]), i)]
       else []) + BranchEdges(branches, i + 1)
  }

  function ThenEdges(then_: Option<ThenBlock>): seq<StepEdge> {
    match then_
    case None => []
    case Some(Unconditional(target)) => [StepEdge(ToStep(target), None, 0)]
    case Some(Multiple(targets)) => seq(|targets|, i requires 0 <= i < |targets| => StepEdge(ToStep(targets[i]), None, 0))
    case Some(Conditional(branches)) => BranchEdges(branches, 0)
  }

  function CompileEdges(node: NodeSchema): seq<StepEdge> {
    (if node.return_.Some? then [StepEdge(Return, None, 0)] else []) + ThenEdges(node.then_)
  }

  // The `for` loop of `compile_node`: same edges, pushed one by one.
  method PushBranchEdges(branches: seq<ThenBranch>) returns (edges: seq<StepEdge>)
    ensures edges == BranchEdges(branches, 0)
  {
    edges := [];
    for i := 0 to |branches|
      invariant edges + BranchEdges(branches, i) == BranchEdges(branches, 0)
    {
      var condition := if branches[i].else_ then None else branches[i].when_;
      var target := branches[i].Target();
      if target.Some? {
        var edge := StepEdge(ToStep(target.value), condition, i);
        assert edges + ([edge] + BranchEdges(branches, i + 1)) == edges + [edge] + BranchEdges(branches, i + 1);
        edges := edges + [edge];
      }
    }
  }

  // ---- Error handling ----

  // The first matching branch decides; a `do` naming a tool leaves the default in place.
  function BranchesOnError(branches: seq<CatchBranch>): ErrorAction {
    if branches == [] then Fail
    else if !branches[0].IsMatch() then BranchesOnError(branches[1..])
    else if branches[0].then_.Some? then Goto(branches[0].then_.value)
    else
      match branches[0].do_
      case None => Fail
      case Some(d) =>
        if d == "skip" || d == "continue" then Skip
        else if "fallback:" <= d then Fallback(d[|"fallback:"|..])
        else Fail
  }

  // The `for` loop of `compile_node`: the default stands unless the first match changes it.
  method ChooseOnError(branches: seq<CatchBranch>) returns (action: ErrorAction)
    ensures action == BranchesOnError(branches)
  {
    action := Fail;
    for i := 0 to |branches|
      invariant action == Fail && BranchesOnError(branches) == BranchesOnError(branches[i..])
    {
      assert branches[i..][1..] == branches[i + 1..];
      var branch := branches[i];
      if branch.IsMatch() {
        if branch.then_.Some? {
          action := Goto(branch.then_.value);
        } else if branch.do_.Some? {
          var d := branch.do_.value;
          if d == "skip" || d == "continue" {
            action := Skip;
          } else if "fallback:" <= d {
            action := Fallback(d[|"fallback:"|..]);
          }
        }
        return;
      }
    }
    assert branches[|branches|..] == [];
  }

  function CompileOnError(catch_: CatchBlock): ErrorAction {
    match catch_
    case CatchAll(target) => Goto(target)
    case CatchBranches(branches) => BranchesOnError(branches)
  }

  // ---- One node ----

  function CompileTool(name: string, node: NodeSchema): string {
    match node.do_
    case Some(Single(tool)) => tool
    case Some(Parallel(_)) => "internal_parallel_" + name
    case None => "echo"
  }

  // Durations are read by `parseDuration`, in milliseconds; `None` is a malformed one.
  function CompileDuration(parseDuration: string -> Option<nat>, text: Option<string>, default: nat): Result<nat, ParseError> {
    match text
    case None => Ok(default)
    case Some(d) => if parseDuration(d).Some? then Ok(parseDuration(d).value) else Err(InvalidDuration(d))
  }

  function CompileRetry(parseDuration: string -> Option<nat>, config: EngineConfig, retry: Option<RetryConfig>)
    : Result<Option<RetryPolicy>, ParseError>
  {
    match retry
    case None => Ok(None)
    case Some(r) =>
      match CompileDuration(parseDuration, r.delay, config.defaultRetryBaseDelayMs)
      case Err(e) => Err(e)
      case Ok(base) =>
        match CompileDuration(parseDuration, r.maxDelay, config.defaultRetryMaxDelayMs)
        case Err(e) => Err(e)
        case Ok(max) =>
          var backoff :=
            if r.backoff == Some("fixed") then Fixed
            else if r.backoff == Some("linear") then Linear(base)
            else Exponential;
          Ok(Some(RetryPolicy(r.times, backoff, base, max)))
  }

  // `compile_node`; `depends_on` is filled in by `compile`.
  function CompileNode(parseDuration: string -> Option<nat>, config: EngineConfig, named: Named): Result<Step, ParseError> {
    var node := named.node;
    match CompileRetry(parseDuration, config, node.retry)
    case Err(e) => Err(e)
    case Ok(retry) =>
      match node.timeout
      case Some(t) =>
        if parseDuration(t).None? then Err(InvalidDuration(t))
        else Ok(Step(named.name, CompileTool(named.name, node), CompileInput(node), CompileEdges(node), [], All,
                     CompileOnError(node.catch_), retry, parseDuration(t), node.repeat_))
      case None =>
        Ok(Step(named.name, CompileTool(named.name, node), CompileInput(node), CompileEdges(node), [], All,
                CompileOnError(node.catch_), retry, None, node.repeat_))
  }

  // ---- The whole schema ----

  // A step is what its node compiles to, with the node's data dependencies in some order.
  ghost predicate StepFrom(schema: WorkflowSchema, named: Named, step: Step) {
    && step.id == named.name
    && step.edges == CompileEdges(named.node)
    && step.onError == CompileOnError(named.node.catch_)
    && step.repeat_ == named.node.repeat_
    && step.input == CompileInput(named.node)
    && step.tool == CompileTool(named.name, named.node)
    && step.join == All
    && Distinct(step.dependsOn)
    && (forall d :: d in step.dependsOn <==> d in DependencyGraph.NodeDependencies(schema, named.name, named.node))
  }

  ghost predicate CompiledFrom(schema: WorkflowSchema, w: Workflow) {
    && schema.nodes != [] && w.entry == schema.nodes[0].name
    && w.capabilities == schema.capabilities
    && |w.steps| == |schema.nodes|
    && forall i :: 0 <= i < |w.steps| ==> StepFrom(schema, schema.nodes[i], w.steps[i])
  }

  method SetToSeq(s: set<string>) returns (order: seq<string>)
    ensures Distinct(order) && forall x :: x in order <==> x in s
  {
    order := [];
    var rest := s;
    while rest != {}
      invariant rest <= s && Distinct(order)
      invariant forall x :: x in order <==> x in s - rest
      decreases rest
    {
      var x :| x in rest;
      assert forall y :: y in order + [x] <==> y in order || y == x;
      order := order + [x];
      rest := rest - {x};
    }
  }

  lemma NodeCompiles(parseDuration: string -> Option<nat>, config: EngineConfig, schema: WorkflowSchema, named: Named, step: Step)
    requires CompileNode(parseDuration, config, named).Ok?
    requires step == CompileNode(parseDuration, config, named).value.(dependsOn := step.dependsOn)
    requires Distinct(step.dependsOn)
    requires forall d :: d in step.dependsOn <==> d in DependencyGraph.NodeDependencies(schema, named.name, named.node)
    ensures StepFrom(schema, named, step)
  {
  }

  // The durations a node writes out.
  function Durations(node: NodeSchema): set<string> {
    (if node.timeout.Some? then {node.timeout.value} else {})
    + (if node.retry.Some? && node.retry.value.delay.Some? then {node.retry.value.delay.value} else {})
    + (if node.retry.Some? && node.retry.value.maxDelay.Some? then {node.retry.value.maxDelay.value} else {})
  }

  /** What one node compiles to beside its routing, and exactly when it does not compile. */
  lemma CompiledFields(parseDuration: string -> Option<nat>, config: EngineConfig, named: Named)
    ensures CompileNode(parseDuration, config, named).Err?
       <==> exists text :: text in Durations(named.node) && parseDuration(text).None?
    ensures CompileNode(parseDuration, config, named).Ok? ==>
              var node, step := named.node, CompileNode(parseDuration, config, named).value;
              && step.id == named.name && step.repeat_ == node.repeat_ && step.join == All
              && (node.do_.None? ==> step.tool == "echo")
              && (node.do_.Some? && node.do_.value.Single? ==> step.tool == node.do_.value.tool)
              && (node.do_.Some? && node.do_.value.Parallel? ==> step.tool == "internal_parallel_" + named.name)
              && (node.timeout.None? <==> step.timeoutMs.None?)
              && (node.timeout.Some? ==> step.timeoutMs == parseDuration(node.timeout.value))
              && (node.retry.None? <==> step.retry.None?)
              && (node.retry.Some? ==> RetryKept(parseDuration, config, node.retry.value, step.retry.value))
  {
  }

  // Attempts and backoff as written, delays as read or by default.
  predicate RetryKept(parseDuration: string -> Option<nat>, config: EngineConfig, written: RetryConfig, kept: RetryPolicy) {
    && kept.maxAttempts == written.times
    && (written.delay.Some? ==> parseDuration(written.delay.value) == Some(kept.baseDelayMs))
    && (written.delay.None? ==> kept.baseDelayMs == config.defaultRetryBaseDelayMs)
    && (written.maxDelay.Some? ==> parseDuration(written.maxDelay.value) == Some(kept.maxDelayMs))
    && (written.maxDelay.None? ==> kept.maxDelayMs == config.defaultRetryMaxDelayMs)
    && (written.backoff == Some("fixed") <==> kept.backoff == Fixed)
    && (written.backoff == Some("linear") <==> kept.backoff == Linear(kept.baseDelayMs))
    && (written.backoff !in {Some("fixed"), Some("linear")} <==> kept.backoff == Exponential)
  }

  /** Inputs come from a `with` object, key by key, or from the `return` of a node without tool. */
  lemma CompiledInputs(node: NodeSchema)
    ensures node.with_.Some? && node.with_.value.JObj? ==>
              var fields := node.with_.value.fields;
              && |CompileInput(node)| == |fields|
              && forall i :: 0 <= i < |fields| ==> CompileInput(node)[i] == (fields[i].0, ValueToExpr(fields[i].1))
    ensures !(node.with_.Some? && node.with_.value.JObj?) ==>
              CompileInput(node)
              == if node.do_.None? && node.return_.Some? then [("__return__", ValueToExpr(node.return_.value))] else []
  {
  }

  method Compile(parseDuration: string -> Option<nat>, config: EngineConfig, schema: WorkflowSchema)
    returns (r: Result<Workflow, ParseError>)
    ensures r.Ok? ==> CompiledFrom(schema, r.value)
    ensures r.Ok? ==> forall i :: 0 <= i < |schema.nodes| ==>
              var node := CompileNode(parseDuration, config, schema.nodes[i]);
              node.Ok? && r.value.steps[i] == node.value.(dependsOn := r.value.steps[i].dependsOn)
    ensures r.Ok? && Accepted(schema) ==> WellFormed(r.value)
    ensures r.Err? ==> schema.nodes == [] || exists i :: 0 <= i < |schema.nodes| && CompileNode(parseDuration, config, schema.nodes[i]).Err?
  {
    hide Accepted, WellFormed, CompileNode, StepFrom;
    var deps := DependencyGraph.Build(schema);
    if schema.nodes == [] {
      return Err(InvalidYaml);
    }
    var steps: seq<Step> := [];
    for i := 0 to |schema.nodes|
      invariant |steps| == i
      invariant forall j :: 0 <= j < i ==> StepFrom(schema, schema.nodes[j], steps[j])
      invariant forall j :: 0 <= j < i ==>
                  var node := CompileNode(parseDuration, config, schema.nodes[j]);
                  node.Ok? && steps[j] == node.value.(dependsOn := steps[j].dependsOn)
    {
      var compiled := CompileNode(parseDuration, config, schema.nodes[i]);
      if compiled.Err? {
        return Err(compiled.error);
      }
      var dependsOn := SetToSeq(deps[schema.nodes[i].name]);
      var step := compiled.value.(dependsOn := dependsOn);
      assert deps[schema.nodes[i].name] == DependencyGraph.NodeDependencies(schema, schema.nodes[i].name, schema.nodes[i].node);
      NodeCompiles(parseDuration, config, schema, schema.nodes[i], step);
      steps := steps + [step];
    }
    var w := Workflow(schema.workflow, schema.nodes[0].name, steps, schema.capabilities);
    if Accepted(schema) {
      CompilationPreservesWellFormedness(schema, w);
    }
    return Ok(w);
  }

  // ---- What the validator accepted survives compilation ----

  lemma NameIsStep(schema: WorkflowSchema, w: Workflow, name: string)
    requires CompiledFrom(schema, w) && name in NodeNames(schema)
    ensures HasStep(w, name)
  {
    var i :| 0 <= i < |schema.nodes| && schema.nodes[i].name == name;
    assert StepFrom(schema, schema.nodes[i], w.steps[i]);
  }

  lemma {:induction false} BranchEdgeTarget(branches: seq<ThenBranch>, from: nat, t: string)
    requires from <= |branches| && t in StepTargets(BranchEdges(branches, from))
    ensures t in BranchTargets(branches)
    decreases |branches| - from
  {
    var rest := BranchEdges(branches, from + 1);
    if branches[from].Target().Some? {
      var edge := StepEdge(ToStep(branches[from].Target().value), BranchCondition(branches[from]), from);
      assert ([edge] + rest)[1..] == rest;
      BranchTargetIn(branches, from);
    } else {
      assert [] + rest == rest;
    }
    if t in StepTargets(rest) {
      BranchEdgeTarget(branches, from + 1, t);
    }
  }

  lemma {:induction false} TargetHasEdge(edges: seq<StepEdge>, t: string)
    ensures t in StepTargets(edges) <==> exists i :: 0 <= i < |edges| && edges[i].target == ToStep(t)
  {
    if edges != [] {
      TargetHasEdge(edges[1..], t);
      if i :| 0 <= i < |edges| && edges[i].target == ToStep(t) {
        if i > 0 {
          assert edges[1..][i - 1].target == ToStep(t);
        }
      }
    }
  }

  // Compiled step edges lead only where the schema's `then` leads.
  lemma EdgeTargetsAreSuccessors(node: NodeSchema, t: string)
    requires t in StepTargets(CompileEdges(node))
    ensures t in Successors(node)
  {
    TargetHasEdge(CompileEdges(node), t);
    TargetHasEdge(ThenEdges(node.then_), t);
    var i :| 0 <= i < |CompileEdges(node)| && CompileEdges(node)[i].target == ToStep(t);
    var k := if node.return_.Some? then i - 1 else i;
    assert ThenEdges(node.then_)[k].target == ToStep(t);
    if node.then_.Some? && node.then_.value.Conditional? {
      BranchEdgeTarget(node.then_.value.branches, 0, t);
    }
    assert t in ThenTargets(node.then_);
  }

  lemma {:induction false} GotoIsBranchTarget(branches: seq<CatchBranch>)
    requires BranchesOnError(branches).Goto?
    ensures BranchesOnError(branches).step in CatchBranchTargets(branches)
  {
    if !branches[0].IsMatch() {
      GotoIsBranchTarget(branches[1..]);
    }
  }

  // So does the error jump.
  lemma GotoIsSuccessor(node: NodeSchema)
    requires CompileOnError(node.catch_).Goto?
    ensures CompileOnError(node.catch_).step in Successors(node)
  {
    if node.catch_.CatchBranches? {
      GotoIsBranchTarget(node.catch_.branches);
    }
  }

  lemma AdjacencyStep(steps: seq<Step>, n: nat)
    requires 0 < n <= |steps|
    ensures Adjacency(steps[..n]) == Adjacency(steps[..n - 1])[steps[n - 1].id := StepTargets(steps[n - 1].edges)]
  {
    assert steps[..n][..n - 1] == steps[..n - 1];
  }

  lemma {:induction false} AdjacencyAt(schema: WorkflowSchema, w: Workflow, n: nat, i: nat)
    requires CompiledFrom(schema, w) && i < n <= |w.steps|
    ensures Adjacency(w.steps[..n])[schema.nodes[i].name] == StepTargets(CompileEdges(schema.nodes[i].node))
    decreases n
  {
    assert StepFrom(schema, schema.nodes[n - 1], w.steps[n - 1]);
    assert StepFrom(schema, schema.nodes[i], w.steps[i]);
    AdjacencyStep(w.steps, n);
    hide CompileEdges, StepTargets, Adjacency;
    assert i < n - 1 ==> schema.nodes[i].name != schema.nodes[n - 1].name;
    if i < n - 1 {
      AdjacencyAt(schema, w, n - 1, i);
    }
  }

  lemma AdjacencyInFlow(schema: WorkflowSchema, w: Workflow, a: string, b: string)
    requires CompiledFrom(schema, w) && Edge(Adjacency(w.steps), a, b)
    ensures Edge(FlowGraph(schema.nodes), a, b)
  {
    var i :| 0 <= i < |w.steps| && w.steps[i].id == a;
    assert StepFrom(schema, schema.nodes[i], w.steps[i]);
    assert w.steps[..|w.steps|] == w.steps;
    AdjacencyAt(schema, w, |w.steps|, i);
    FlowGraphAt(schema.nodes, i);
    EdgeTargetsAreSuccessors(schema.nodes[i].node, b);
  }

  lemma StepIsKnown(schema: WorkflowSchema, w: Workflow, i: nat)
    requires CompiledFrom(schema, w) && Accepted(schema) && i < |w.steps|
    ensures EdgesKnown(w, w.steps[i]) && DepsKnown(w, w.steps[i])
  {
    var node, step := schema.nodes[i].node, w.steps[i];
    assert StepFrom(schema, schema.nodes[i], step) && NodeOk(schema, node);
    forall j | 0 <= j < |step.edges| && step.edges[j].target.ToStep? ensures HasStep(w, step.edges[j].target.id) {
      TargetHasEdge(step.edges, step.edges[j].target.id);
      EdgeTargetsAreSuccessors(node, step.edges[j].target.id);
      NameIsStep(schema, w, step.edges[j].target.id);
    }
    forall j | 0 <= j < |step.dependsOn| ensures HasStep(w, step.dependsOn[j]) {
      assert step.dependsOn[j] in step.dependsOn;
      NameIsStep(schema, w, step.dependsOn[j]);
    }
  }

  /** A compiled accepted schema always passes the workflow's own validation. */
  lemma CompilationPreservesWellFormedness(schema: WorkflowSchema, w: Workflow)
    requires Accepted(schema) && CompiledFrom(schema, w)
    ensures WellFormed(w)
  {
    NameIsStep(schema, w, schema.nodes[0].name);
    forall i | 0 <= i < |w.steps| ensures EdgesKnown(w, w.steps[i]) && DepsKnown(w, w.steps[i]) {
      StepIsKnown(schema, w, i);
    }
    var r :| 0 <= r < |schema.nodes| && schema.nodes[r].node.return_.Some?;
    assert StepFrom(schema, schema.nodes[r], w.steps[r]);
    assert w.steps[r].edges[0].target.Return?;
    assert Returns(w.steps[r]);
    forall a, b | Edge(Adjacency(w.steps), a, b) ensures Edge(FlowGraph(schema.nodes), a, b) {
      AdjacencyInFlow(schema, w, a, b);
    }
    SubgraphAcyclic(Adjacency(w.steps), FlowGraph(schema.nodes));
  }
}
