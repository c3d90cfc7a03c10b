/**
  The schema validator: per-node checks, then a depth-first walk over `then` and `catch`
  targets that looks for cycles on its own path and collects what it reached.
 */
module Validator {
  import opened Wrappers
  import opened Graphs
  import opened Schema
  import Capabilities

  datatype ValidationError =
    | NoEntryNode
    | UnknownNode(node: string, from: string)
    | MissingCapability(capability: string)
    | NoReturnNode
    | OrphanedNode(node: string)
    | CycleDetected(path: seq<string>)

  // ---- Per-node checks ----

  // `check_tool`: no declared capabilities means no restriction.
  predicate ToolAllowed(schema: WorkflowSchema, tool: string) {
    schema.capabilities == [] || Capabilities.AnyMatches(schema.capabilities, tool)
  }

  function CheckTools(schema: WorkflowSchema, tools: seq<string>): (e: Option<ValidationError>)
    ensures e.None? <==> forall t :: t in tools ==> ToolAllowed(schema, t)
    ensures e.Some? ==> e.value.MissingCapability?
  {
    if tools == [] then None
    else if !ToolAllowed(schema, tools[0]) then Some(MissingCapability(tools[0]))
    else CheckTools(schema, tools[1..])
  }

  function Flatten(tasks: seq<seq<string>>): seq<string> {
    if tasks == [] then [] else tasks[0] + Flatten(tasks[1..])
  }

  function DoTools(do_: Option<DoBlock>): seq<string> {
    match do_
    case None => []
    case Some(Single(tool)) => [tool]
    case Some(Parallel(tasks)) => Flatten(tasks)
  }

  function PipeTools(pipe: seq<PipeStepSchema>): seq<string> {
    if pipe == [] then []
    else
      (match pipe[0]
       case Simple(tool) => [tool]
       case WithArgs(args) => if args == [] then [] else [args[0].0]
       case Full(tool, _) => [tool]) + PipeTools(pipe[1..])
  }

  function CheckTargets(names: set<string>, targets: seq<string>, from: string): (e: Option<ValidationError>)
    ensures e.None? <==> forall t :: t in targets ==> t in names
    ensures e.Some? ==> e.value.UnknownNode? && e.value.node in targets && e.value.node !in names
  {
    if targets == [] then None
    else if targets[0] !in names then Some(UnknownNode(targets[0], from))
    else CheckTargets(names, targets[1..], from)
  }

  // A catch branch's `do:` names a tool unless it is one of the built-in reactions.
  predicate IsBuiltinReaction(do_: string) {
    do_ == "skip" || do_ == "continue" || "fallback:" <= do_
  }

  function CatchTools(branches: seq<CatchBranch>): seq<string> {
    if branches == [] then []
    else
      (if branches[0].do_.Some? && !IsBuiltinReaction(branches[0].do_.value) then [branches[0].do_.value] else [])
      + CatchTools(branches[1..])
  }

  function CheckCatchBranches(schema: WorkflowSchema, branches: seq<CatchBranch>, from: string): (e: Option<ValidationError>)
    ensures e.None? <==>
      && (forall t :: t in CatchBranchTargets(branches) ==> t in NodeNames(schema))
      && (forall t :: t in CatchTools(branches) ==> ToolAllowed(schema, t))
    ensures e.Some? ==> e.value.UnknownNode? || e.value.MissingCapability?
  {
    if branches == [] then None
    else
      var b := branches[0];
      if b.then_.Some? && b.then_.value !in NodeNames(schema) then Some(UnknownNode(b.then_.value, from))
      else if b.do_.Some? && !IsBuiltinReaction(b.do_.value) && !ToolAllowed(schema, b.do_.value) then
        assert b.do_.value in CatchTools(branches);
        Some(MissingCapability(b.do_.value))
      else CheckCatchBranches(schema, branches[1..], from)
  }

  function CheckCatch(schema: WorkflowSchema, catch_: CatchBlock, from: string): Option<ValidationError> {
    match catch_
    case CatchAll(target) => if target in NodeNames(schema) then None else Some(UnknownNode(target, from))
    case CatchBranches(branches) => CheckCatchBranches(schema, branches, from)
  }

  // `validate_node`: the first complaint, in the order the source looks.
  function ValidateNode(schema: WorkflowSchema, name: string, node: NodeSchema): Option<ValidationError> {
    var e1 := CheckTools(schema, DoTools(node.do_));
    if e1.Some? then e1
    else
      var e2 := CheckTools(schema, PipeTools(node.pipe));
      if e2.Some? then e2
      else
        var e3 := CheckTargets(NodeNames(schema), ThenTargets(node.then_), name);
        if e3.Some? then e3 else CheckCatch(schema, node.catch_, name)
  }

  // What a node must satisfy, without saying in which order it is looked at.
  ghost predicate NodeOk(schema: WorkflowSchema, node: NodeSchema) {
    && (forall t :: t in Successors(node) ==> t in NodeNames(schema))
    && (forall t :: t in DoTools(node.do_) + PipeTools(node.pipe) ==> ToolAllowed(schema, t))
    && (node.catch_.CatchBranches? ==> forall t :: t in CatchTools(node.catch_.branches) ==> ToolAllowed(schema, t))
  }

  lemma NodeCheckExact(schema: WorkflowSchema, name: string, node: NodeSchema)
    ensures ValidateNode(schema, name, node).None? <==> NodeOk(schema, node)
  {
  }

  // ---- The same, on the YAML node ----

  // A tool the node's `do` names, alone or in a parallel block.
  predicate DoNames(do_: Option<DoBlock>, tool: string) {
    match do_
    case None => false
    case Some(Single(t)) => t == tool
    case Some(Parallel(tasks)) => exists i, j :: 0 <= i < |tasks| && 0 <= j < |tasks[i]| && tasks[i][j] == tool
  }

  // A tool a pipe step names: by itself, by `do`, or as the one key of its arguments.
  predicate PipeNames(p: PipeStepSchema, tool: string) {
    match p
    case Simple(t) => t == tool
    case WithArgs(args) => args != [] && args[0].0 == tool
    case Full(t, _) => t == tool
  }

  // A tool a catch branch calls: its `do`, unless that is a built-in reaction.
  predicate CatchNames(branch: CatchBranch, tool: string) {
    branch.do_ == Some(tool) && tool != "skip" && tool != "continue" && !("fallback:" <= tool)
  }

  predicate CatchLeads(catch_: CatchBlock, id: string) {
    match catch_
    case CatchAll(target) => target == id
    case CatchBranches(branches) => exists i :: 0 <= i < |branches| && branches[i].then_ == Some(id)
  }

  lemma {:induction false} FlattenIff(tasks: seq<seq<string>>, tool: string)
    ensures tool in Flatten(tasks) <==> exists i, j :: 0 <= i < |tasks| && 0 <= j < |tasks[i]| && tasks[i][j] == tool
  {
    if tasks != [] {
      FlattenIff(tasks[1..], tool);
      if tool in tasks[0] {
        var j :| 0 <= j < |tasks[0]| && tasks[0][j] == tool;
      }
      if i, j :| 0 <= i < |tasks| && 0 <= j < |tasks[i]| && tasks[i][j] == tool {
        if i > 0 {
          assert tasks[1..][i - 1][j] == tool;
        }
      }
      if i, j :| 0 <= i < |tasks[1..]| && 0 <= j < |tasks[1..][i]| && tasks[1..][i][j] == tool {
        assert tasks[i + 1][j] == tool;
      }
    }
  }

  lemma {:induction false} PipeIff(pipe: seq<PipeStepSchema>, tool: string)
    ensures tool in PipeTools(pipe) <==> exists i :: 0 <= i < |pipe| && PipeNames(pipe[i], tool)
  {
    if pipe != [] {
      PipeIff(pipe[1..], tool);
      if i :| 0 <= i < |pipe| && PipeNames(pipe[i], tool) {
        assert i > 0 ==> pipe[1..][i - 1] == pipe[i];
      }
    }
  }

  lemma {:induction false} CatchToolsIff(branches: seq<CatchBranch>, tool: string)
    ensures tool in CatchTools(branches) <==> exists i :: 0 <= i < |branches| && CatchNames(branches[i], tool)
  {
    if branches != [] {
      CatchToolsIff(branches[1..], tool);
      if i :| 0 <= i < |branches| && CatchNames(branches[i], tool) {
        assert i > 0 ==> branches[1..][i - 1] == branches[i];
      }
    }
  }

  lemma {:induction false} CatchTargetsIff(branches: seq<CatchBranch>, id: string)
    ensures id in CatchBranchTargets(branches) <==> exists i :: 0 <= i < |branches| && branches[i].then_ == Some(id)
  {
    if branches != [] {
      CatchTargetsIff(branches[1..], id);
      if i :| 0 <= i < |branches| && branches[i].then_ == Some(id) {
        assert i > 0 ==> branches[1..][i - 1] == branches[i];
      }
    }
  }

  // A tool the node names anywhere.
  predicate CallsTool(node: NodeSchema, tool: string) {
    || DoNames(node.do_, tool)
    || (exists i :: 0 <= i < |node.pipe| && PipeNames(node.pipe[i], tool))
    || (node.catch_.CatchBranches? && exists i :: 0 <= i < |node.catch_.branches| && CatchNames(node.catch_.branches[i], tool))
  }

  /**
    A node passes if and only if every `then` and `catch` target is a node, and every tool it
    names is covered by a declared capability, if any are declared.
   */
  lemma NodeOkIff(schema: WorkflowSchema, node: NodeSchema)
    ensures NodeOk(schema, node)
       <==> && (forall id :: id in ThenTargets(node.then_) || CatchLeads(node.catch_, id) ==>
                  exists i :: 0 <= i < |schema.nodes| && schema.nodes[i].name == id)
            && (schema.capabilities == [] || forall tool :: CallsTool(node, tool) ==>
                  exists i :: 0 <= i < |schema.capabilities| && Capabilities.CapMatches(schema.capabilities[i], tool))
  {
    hide ThenTargets, Capabilities.CapMatches, PipeNames, CatchNames;
    forall id ensures id in Successors(node) <==> id in ThenTargets(node.then_) || CatchLeads(node.catch_, id) {
      if node.catch_.CatchBranches? {
        CatchTargetsIff(node.catch_.branches, id);
      }
    }
    forall tool
      ensures CallsTool(node, tool)
         <==> tool in DoTools(node.do_) + PipeTools(node.pipe)
              || (node.catch_.CatchBranches? && tool in CatchTools(node.catch_.branches))
    {
      PipeIff(node.pipe, tool);
      if node.do_.Some? && node.do_.value.Parallel? {
        FlattenIff(node.do_.value.tasks, tool);
      }
      if node.catch_.CatchBranches? {
        CatchToolsIff(node.catch_.branches, tool);
      }
    }
  }

  // ---- Reachability and cycles ----

  ghost predicate WalkInv(g: Graph, entry: string, visited: set<string>, path: seq<string>, done: seq<string>) {
    && Walk(g, visited, path, done)
    && (forall x :: x in visited ==> Reaches(g, entry, x))
  }

  // `dfs`: `visited`, `path` and `reachable` go in and come back out, as the source's
  // mutable borrows do.  `done` lists the nodes in the order they are left.
  method Dfs(g: Graph, ghost entry: string, ghost all: set<string>, current: string,
             visited0: set<string>, path0: seq<string>, reachable0: set<string>, ghost done0: seq<string>)
    returns (r: Result<(), ValidationError>,
             visited: set<string>, path: seq<string>, reachable: set<string>, ghost done: seq<string>)
    requires WalkInv(g, entry, visited0, path0, done0) && reachable0 == visited0
    requires Covers(g, all) && current in all
    requires Reaches(g, entry, current)
    requires path0 == [] || Edge(g, path0[|path0| - 1], current)
    decreases |all - visited0|, 0
    ensures r.Ok? ==> WalkInv(g, entry, visited, path, done) && reachable == visited
    ensures r.Ok? ==> path == path0 && visited0 <= visited && current in visited && current !in path
    ensures r.Err? ==> r.error.CycleDetected? && EndsInCycle(g, r.error.path)
  {
    visited, path, reachable, done := visited0, path0, reachable0, done0;
    if current in path {
      PathGrows(g, path, current);
      return Err(CycleDetected(path + [current])), visited, path, reachable, done;
    }
    reachable := reachable + {current};
    if current in visited {
      return Ok(()), visited, path, reachable, done;
    }
    WalkEnters(g, visited, path, done, current);
    visited := visited + {current};
    path := path + [current];
    SmallerSet(all - visited, all - visited0);
    r, visited, path, reachable, done := DfsEach(g, entry, all, current, visited, path, reachable, done);
    if r.Ok? {
      WalkLeaves(g, visited, path0, done, current);
      path := path[..|path| - 1];
      done := done + [current];
    }
  }

  // The loops of `dfs` over the targets of the node at the end of the path.
  method DfsEach(g: Graph, ghost entry: string, ghost all: set<string>, current: string,
                 visited0: set<string>, path0: seq<string>, reachable0: set<string>, ghost done0: seq<string>)
    returns (r: Result<(), ValidationError>,
             visited: set<string>, path: seq<string>, reachable: set<string>, ghost done: seq<string>)
    requires WalkInv(g, entry, visited0, path0, done0) && reachable0 == visited0
    requires path0 != [] && path0[|path0| - 1] == current && Reaches(g, entry, current)
    requires Covers(g, all)
    decreases |all - visited0|, 1
    ensures r.Ok? ==> WalkInv(g, entry, visited, path, done) && reachable == visited
    ensures r.Ok? ==> path == path0 && visited0 <= visited
    ensures r.Ok? ==> forall b :: b in Targets(g, current) ==> b in visited && b !in path
    ensures r.Err? ==> r.error.CycleDetected? && EndsInCycle(g, r.error.path)
  {
    r, visited, path, reachable, done := Ok(()), visited0, path0, reachable0, done0;
    var successors := Targets(g, current);
    for i := 0 to |successors|
      invariant WalkInv(g, entry, visited, path, done) && reachable == visited
      invariant path == path0 && visited0 <= visited && r.Ok?
      invariant forall j :: 0 <= j < i ==> successors[j] in visited && successors[j] !in path
    {
      assert Edge(g, current, successors[i]);
      ReachesFurther(g, entry, current, successors[i]);
      NoMoreLeft(all, visited0, visited);
      r, visited, path, reachable, done := Dfs(g, entry, all, successors[i], visited, path, reachable, done);
      if r.Err? {
        return;
      }
    }
  }

  /** The walk accepts exactly the acyclic graphs all of whose nodes the entry reaches. */
  method CheckReachabilityAndCycles(g: Graph, entry: string) returns (r: Result<(), ValidationError>)
    requires entry in g
    ensures r.Ok? <==> !Cyclic(g) && forall n :: n in g ==> Reaches(g, entry, n)
    ensures r.Err? ==> r.error.CycleDetected? || r.error.OrphanedNode?
    ensures r.Err? && r.error.CycleDetected? ==> EndsInCycle(g, r.error.path)
    ensures r.Err? && r.error.OrphanedNode? ==> r.error.node in g && !Reaches(g, entry, r.error.node)
  {
    ReachesItself(g, entry);
    var visited, path, reachable;
    ghost var done;
    r, visited, path, reachable, done := Dfs(g, entry, Vertices(g) + {entry}, entry, {}, [], {}, []);
    if r.Err? {
      EndsInCycleIsCyclic(g, r.error.path);
      return;
    }
    var names := g.Keys;
    while names != {}
      invariant names <= g.Keys
      invariant forall n :: n in g.Keys - names ==> n in reachable
      decreases names
    {
      var node :| node in names;
      if node !in reachable {
        assert entry in done;
        if Reaches(g, entry, node) {
          SettledClosed(g, done, entry, node);
        }
        return Err(OrphanedNode(node));
      }
      names := names - {node};
    }
    AllSettledAcyclic(g, done);
    r := Ok(());
  }

  // ---- The whole validation ----

  /** What an accepted schema is, said without the algorithm. */
  ghost predicate Accepted(schema: WorkflowSchema) {
    && schema.nodes != []
    && (forall i :: 0 <= i < |schema.nodes| ==> NodeOk(schema, schema.nodes[i].node))
    && !Cyclic(FlowGraph(schema.nodes))
    && (forall n :: n in FlowGraph(schema.nodes) ==> Reaches(FlowGraph(schema.nodes), schema.nodes[0].name, n))
    && HasReturn(schema.nodes)
  }

  predicate HasReturn(nodes: seq<Named>) {
    exists i :: 0 <= i < |nodes| && nodes[i].node.return_.Some?
  }

  // `check_terminals`
  method CheckTerminals(schema: WorkflowSchema) returns (r: Result<(), ValidationError>)
    ensures r == if HasReturn(schema.nodes) then Ok(()) else Err(NoReturnNode)
  {
    for i := 0 to |schema.nodes|
      invariant forall j :: 0 <= j < i ==> schema.nodes[j].node.return_.None?
    {
      if schema.nodes[i].node.return_.Some? {
        return Ok(());
      }
    }
    return Err(NoReturnNode);
  }

  method ValidateNodes(schema: WorkflowSchema) returns (r: Result<(), ValidationError>)
    ensures r.Ok? <==> forall i :: 0 <= i < |schema.nodes| ==> NodeOk(schema, schema.nodes[i].node)
    ensures r.Err? ==> r.error.UnknownNode? || r.error.MissingCapability?
  {
    for i := 0 to |schema.nodes|
      invariant forall j :: 0 <= j < i ==> NodeOk(schema, schema.nodes[j].node)
    {
      r := ValidateEntry(schema, schema.nodes[i]);
      if r.Err? {
        return;
      }
    }
    r := Ok(());
  }

  method ValidateEntry(schema: WorkflowSchema, entry: Named) returns (r: Result<(), ValidationError>)
    ensures r.Ok? <==> NodeOk(schema, entry.node)
    ensures r.Err? ==> r.error.UnknownNode? || r.error.MissingCapability?
  {
    var e := ValidateNode(schema, entry.name, entry.node);
    NodeCheckExact(schema, entry.name, entry.node);
    return if e.Some? then Err(e.value) else Ok(());
  }

  /** The validator accepts a schema if and only if it is well formed. */
  method Validate(schema: WorkflowSchema) returns (r: Result<(), ValidationError>)
    ensures r.Ok? <==> Accepted(schema)
    ensures r == Err(NoReturnNode) ==> !HasReturn(schema.nodes)
  {
    if schema.nodes == [] {
      return Err(NoEntryNode);
    }
    r := ValidateNodes(schema);
    if r.Err? {
      return;
    }
    r := CheckReachabilityAndCycles(FlowGraph(schema.nodes), schema.nodes[0].name);
    if r.Err? {
      return;
    }
    r := CheckTerminals(schema);
  }
}
