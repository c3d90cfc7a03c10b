/**
  The parsed workflow file: the schema types the validator, the dependency graph and the
  compiler all read.  The node map keeps insertion order, so it is a sequence of entries
  with distinct names.
 */
module Schema {
  import opened Wrappers
  import opened Graphs

  datatype Json =
    | JNull
    | JBool(b: bool)
    | JNum(n: int)
    | JStr(s: string)
    | JArr(items: seq<Json>)
    | JObj(fields: seq<(string, Json)>)

  datatype DoBlock =
    | Single(tool: string)
    | Parallel(tasks: seq<seq<string>>)

  datatype PipeStepSchema =
    | Simple(tool: string)
    | WithArgs(args: seq<(string, Json)>)
    | Full(do_: string, with_: Option<Json>)

  datatype ThenBranch = ThenBranch(when_: Option<string>, then_: Option<string>, goto_: Option<string>, else_: bool)
  {
    // `branch.then.as_ref().or(branch.goto.as_ref())`
    function Target(): Option<string> {
      if then_.Some? then then_ else goto_
    }
  }

  datatype ThenBlock =
    | Unconditional(target: string)
    | Multiple(targets: seq<string>)
    | Conditional(branches: seq<ThenBranch>)

  datatype CatchBranch = CatchBranch(when_: Option<Json>, do_: Option<string>, then_: Option<string>, else_: bool)
  {
    predicate IsMatch() {
      if else_ then true
      else
        match when_
        case None => true
        case Some(JBool(b)) => b
        case Some(JStr(s)) => s == "true"
        case _ => false
    }
  }

  datatype CatchBlock =
    | CatchAll(target: string)
    | CatchBranches(branches: seq<CatchBranch>)

  datatype RepeatConfig = RepeatConfig(until: string, max: nat, asVar: Option<string>)

  datatype RetryConfig = RetryConfig(times: nat, delay: Option<string>, backoff: Option<string>, maxDelay: Option<string>)

  datatype NodeSchema = NodeSchema(
    do_: Option<DoBlock>, with_: Option<Json>, pipe: seq<PipeStepSchema>,
    then_: Option<ThenBlock>, catch_: CatchBlock,
    retry: Option<RetryConfig>, timeout: Option<string>, repeat_: Option<RepeatConfig>,
    return_: Option<Json>)

  datatype Named = Named(name: string, node: NodeSchema)

  type Nodes = ns: seq<Named> | forall i, j :: 0 <= i < j < |ns| ==> ns[i].name != ns[j].name witness []

  datatype WorkflowSchema = WorkflowSchema(workflow: string, capabilities: seq<string>, nodes: Nodes)

  function Names(nodes: seq<Named>): seq<string> {
    seq(|nodes|, i requires 0 <= i < |nodes| => nodes[i].name)
  }

  function NodeNames(schema: WorkflowSchema): set<string> {
    set i | 0 <= i < |schema.nodes| :: schema.nodes[i].name
  }

  // ---- Where control can go from a node, in the order the validator walks it ----

  function BranchTargets(branches: seq<ThenBranch>): seq<string> {
    if branches == [] then []
    else (if branches[0].Target().Some? then [branches[0].Target().value] else []) + BranchTargets(branches[1..])
  }

  function ThenTargets(then_: Option<ThenBlock>): seq<string> {
    match then_
    case None => []
    case Some(Unconditional(target)) => [target]
    case Some(Multiple(targets)) => targets
    case Some(Conditional(branches)) => BranchTargets(branches)
  }

  function CatchBranchTargets(branches: seq<CatchBranch>): seq<string> {
    if branches == [] then []
    else (if branches[0].then_.Some? then [branches[0].then_.value] else []) + CatchBranchTargets(branches[1..])
  }

  function CatchTargets(catch_: CatchBlock): seq<string> {
    match catch_
    case CatchAll(target) => [target]
    case CatchBranches(branches) => CatchBranchTargets(branches)
  }

  function Successors(node: NodeSchema): seq<string> {
    ThenTargets(node.then_) + CatchTargets(node.catch_)
  }

  function FlowGraph(nodes: seq<Named>): (g: Graph)
    ensures g.Keys == set i | 0 <= i < |nodes| :: nodes[i].name
  {
    if nodes == [] then map[]
    else
      var g := FlowGraph(nodes[..|nodes| - 1]);
      var last := nodes[|nodes| - 1];
      g[last.name := Successors(last.node)]
  }

  lemma {:induction false} FlowGraphAt(nodes: Nodes, i: nat)
    requires i < |nodes|
    ensures nodes[i].name in FlowGraph(nodes) && FlowGraph(nodes)[nodes[i].name] == Successors(nodes[i].node)
    decreases |nodes|
  {
    if i < |nodes| - 1 {
      FlowGraphAt(nodes[..|nodes| - 1], i);
    }
  }

  lemma {:induction false} BranchTargetIn(branches: seq<ThenBranch>, i: nat)
    requires i < |branches| && branches[i].Target().Some?
    ensures branches[i].Target().value in BranchTargets(branches)
  {
    if i > 0 {
      BranchTargetIn(branches[1..], i - 1);
    }
  }

  lemma {:induction false} CatchBranchTargetIn(branches: seq<CatchBranch>, i: nat)
    requires i < |branches| && branches[i].then_.Some?
    ensures branches[i].then_.value in CatchBranchTargets(branches)
  {
    if i > 0 {
      CatchBranchTargetIn(branches[1..], i - 1);
    }
  }
}
