/**
  The workflow IR the compiler emits and the executor runs, and its own validator with the
  three-colour cycle search.
 */
module Workflows {
  import opened Wrappers
  import opened Graphs
  import opened Schema
  import opened Validator

  datatype Expr =
    | Literal(text: string)
    | Ref(path: string)
    | Template(text: string)
    | JsonExpr(value: Json)

  datatype EdgeTarget = ToStep(id: string) | Return

  datatype StepEdge = StepEdge(target: EdgeTarget, condition: Option<string>, priority: int)

  datatype JoinPolicy = All | Any | Quorum(min: nat) | Lenient

  datatype ErrorAction = Fail | Skip | Fallback(value: string) | Goto(step: string)

  datatype Backoff = Fixed | Exponential | Linear(incrementMs: nat)

  datatype RetryPolicy = RetryPolicy(maxAttempts: nat, backoff: Backoff, baseDelayMs: nat, maxDelayMs: nat)

  datatype Step = Step(
    id: string, tool: string, input: seq<(string, Expr)>, edges: seq<StepEdge>,
    dependsOn: seq<string>, join: JoinPolicy, onError: ErrorAction,
    retry: Option<RetryPolicy>, timeoutMs: Option<nat>, repeat_: Option<RepeatConfig>)

  datatype Workflow = Workflow(id: string, entry: string, steps: seq<Step>, capabilities: seq<string>)

  // `Workflow::get_step`: the first step with the id.
  function GetStep(steps: seq<Step>, id: string): (s: Option<Step>)
    ensures s.Some? ==> s.value in steps && s.value.id == id
    ensures s.None? <==> forall i :: 0 <= i < |steps| ==> steps[i].id != id
  {
    if steps == [] then None
    else if steps[0].id == id then Some(steps[0])
    else GetStep(steps[1..], id)
  }

  lemma {:induction false} GetStepIsFirst(steps: seq<Step>, id: string, i: nat)
    requires i < |steps| && steps[i].id == id && forall j :: 0 <= j < i ==> steps[j].id != id
    ensures GetStep(steps, id) == Some(steps[i])
    decreases i
  {
    if i > 0 {
      GetStepIsFirst(steps[1..], id, i - 1);
    }
  }

  predicate HasStep(w: Workflow, id: string) {
    GetStep(w.steps, id).Some?
  }

  // ---- Cycle detection ----

  function StepTargets(edges: seq<StepEdge>): seq<string> {
    if edges == [] then []
    else (if edges[0].target.ToStep? then [edges[0].target.id] else []) + StepTargets(edges[1..])
  }

  // Step edges by id; a later step with the same id replaces an earlier one.
  function Adjacency(steps: seq<Step>): (g: Graph)
    ensures g.Keys == set i | 0 <= i < |steps| :: steps[i].id
  {
    if steps == [] then map[]
    else
      var last := steps[|steps| - 1];
      Adjacency(steps[..|steps| - 1])[last.id := StepTargets(last.edges)]
  }

  datatype Color = Gray | Black

  // The colour map says where the walk is: gray is on the path, black is finished.
  ghost predicate ColorInv(g: Graph, color: map<string, Color>, path: seq<string>, black: seq<string>) {
    && Walk(g, color.Keys, path, black)
    && (forall x :: x in color ==> (color[x] == Gray <==> x in path))
  }

  lemma ColorEnters(g: Graph, color: map<string, Color>, path: seq<string>, black: seq<string>, x: string)
    requires ColorInv(g, color, path, black) && x !in color
    requires path == [] || Edge(g, path[|path| - 1], x)
    ensures ColorInv(g, color[x := Gray], path + [x], black)
    ensures color[x := Gray].Keys == color.Keys + {x}
  {
    WalkEnters(g, color.Keys, path, black, x);
    assert color[x := Gray].Keys == color.Keys + {x};
  }

  lemma ColorLeaves(g: Graph, color: map<string, Color>, path: seq<string>, black: seq<string>, x: string)
    requires ColorInv(g, color, path + [x], black)
    requires forall b :: b in Targets(g, x) ==> b in color && b !in path + [x]
    ensures ColorInv(g, color[x := Black], path, black + [x])
    ensures color[x := Black].Keys == color.Keys && x in color && x !in path
  {
    WalkLeaves(g, color.Keys, path, black, x);
    assert color[x := Black].Keys == color.Keys;
  }

  lemma BackEdge(g: Graph, color: map<string, Color>, path: seq<string>, black: seq<string>, x: string)
    requires ColorInv(g, color, path, black) && path != [] && Edge(g, path[|path| - 1], x) && x in color
    ensures if color[x] == Gray then EndsInCycle(g, path + [x]) else x !in path
  {
    PathGrows(g, path, x);
  }

  // All steps coloured and none gray: the adjacency is settled throughout.
  lemma AllBlackAcyclic(steps: seq<Step>, color: map<string, Color>, black: seq<string>)
    requires ColorInv(Adjacency(steps), color, [], black)
    requires forall i :: 0 <= i < |steps| ==> steps[i].id in color
    ensures !Cyclic(Adjacency(steps))
  {
    AllSettledAcyclic(Adjacency(steps), black);
  }

  // `dfs_detect_cycle`
  method DfsDetectCycle(g: Graph, ghost all: set<string>, node: string,
                        color0: map<string, Color>, path0: seq<string>, ghost black0: seq<string>)
    returns (found: bool, color: map<string, Color>, path: seq<string>, ghost black: seq<string>)
    requires ColorInv(g, color0, path0, black0)
    requires Covers(g, all) && node in all && node !in color0
    requires path0 == [] || Edge(g, path0[|path0| - 1], node)
    decreases |all - color0.Keys|, 0
    ensures !found ==> ColorInv(g, color, path, black)
    ensures !found ==> path == path0 && color0.Keys <= color.Keys && node in color && node !in path
    ensures found ==> EndsInCycle(g, path)
  {
    ColorEnters(g, color0, path0, black0, node);
    color := color0[node := Gray];
    path, black := path0 + [node], black0;
    SmallerSet(all - color.Keys, all - color0.Keys);
    found, color, path, black := DfsNeighbors(g, all, node, color, path, black);
    if !found {
      ColorLeaves(g, color, path0, black, node);
      color := color[node := Black];
      path := path[..|path| - 1];
      black := black + [node];
    }
  }

  // The neighbour loop of `dfs_detect_cycle`.
  method DfsNeighbors(g: Graph, ghost all: set<string>, node: string,
                      color0: map<string, Color>, path0: seq<string>, ghost black0: seq<string>)
    returns (found: bool, color: map<string, Color>, path: seq<string>, ghost black: seq<string>)
    requires ColorInv(g, color0, path0, black0)
    requires Covers(g, all) && path0 != [] && path0[|path0| - 1] == node
    decreases |all - color0.Keys|, 1
    ensures !found ==> ColorInv(g, color, path, black) && path == path0 && color0.Keys <= color.Keys
    ensures !found ==> forall b :: b in Targets(g, node) ==> b in color && b !in path
    ensures found ==> EndsInCycle(g, path)
  {
    found, color, path, black := false, color0, path0, black0;
    var neighbors := Targets(g, node);
    for i := 0 to |neighbors|
      invariant ColorInv(g, color, path, black)
      invariant path == path0 && color0.Keys <= color.Keys && !found
      invariant forall j :: 0 <= j < i ==> neighbors[j] in color && neighbors[j] !in path
    {
      assert Edge(g, node, neighbors[i]);
      if neighbors[i] in color {
        BackEdge(g, color, path, black, neighbors[i]);
        if color[neighbors[i]] == Gray {
          path := path + [neighbors[i]];
          found := true;
          return;
        }
      } else {
        NoMoreLeft(all, color0.Keys, color.Keys);
        found, color, path, black := DfsDetectCycle(g, all, neighbors[i], color, path, black);
        if found {
          return;
        }
      }
    }
  }

  method BuildAdjacency(steps: seq<Step>) returns (g: Graph)
    ensures g == Adjacency(steps)
  {
    g := map[];
    for i := 0 to |steps|
      invariant g == Adjacency(steps[..i])
    {
      assert steps[..i + 1][..i] == steps[..i];
      g := g[steps[i].id := StepTargets(steps[i].edges)];
    }
    assert steps[..|steps|] == steps;
  }

  /** The three-colour search reports a cycle exactly when the step edges have one. */
  method DetectCycles(w: Workflow) returns (r: Result<(), ValidationError>)
    ensures r.Ok? <==> !Cyclic(Adjacency(w.steps))
    ensures r.Err? ==> r.error.CycleDetected? && EndsInCycle(Adjacency(w.steps), r.error.path)
  {
    var g := BuildAdjacency(w.steps);
    ghost var all := Vertices(g) + {w.entry};
    var found, color, path, black := DfsDetectCycle(g, all, w.entry, map[], [], []);
    if found {
      EndsInCycleIsCyclic(g, path);
      return Err(CycleDetected(path));
    }
    found, path := DetectElsewhere(w.steps, g, all, color, black);
    return if found then Err(CycleDetected(path)) else Ok(());
  }

  // The loop over the steps the entry does not reach.
  method DetectElsewhere(steps: seq<Step>, g: Graph, ghost all: set<string>, color0: map<string, Color>, ghost black0: seq<string>)
    returns (found: bool, path: seq<string>)
    requires g == Adjacency(steps) && Covers(g, all) && Vertices(g) <= all && ColorInv(g, color0, [], black0)
    ensures found <==> Cyclic(g)
    ensures found ==> EndsInCycle(g, path)
  {
    assert forall i :: 0 <= i < |steps| ==> steps[i].id in g && steps[i].id in all;
    hide Cyclic, EndsInCycle, Vertices, Covers, Adjacency;
    var color := color0;
    ghost var black := black0;
    path := [];
    for i := 0 to |steps|
      invariant ColorInv(g, color, path, black) && path == []
      invariant forall j :: 0 <= j < i ==> steps[j].id in color
    {
      if steps[i].id !in color {
        found, color, path, black := DfsDetectCycle(g, all, steps[i].id, color, path, black);
        if found {
          EndsInCycleIsCyclic(g, path);
          return;
        }
      }
    }
    AllBlackAcyclic(steps, color, black);
    found := false;
  }

  // ---- Workflow validation ----

  predicate EdgesKnown(w: Workflow, step: Step) {
    forall i :: 0 <= i < |step.edges| && step.edges[i].target.ToStep? ==> HasStep(w, step.edges[i].target.id)
  }

  predicate DepsKnown(w: Workflow, step: Step) {
    forall i :: 0 <= i < |step.dependsOn| ==> HasStep(w, step.dependsOn[i])
  }

  predicate Returns(step: Step) {
    exists i :: 0 <= i < |step.edges| && step.edges[i].target.Return?
  }

  /** A workflow the executor may be given. */
  ghost predicate WellFormed(w: Workflow) {
    && HasStep(w, w.entry)
    && (forall i :: 0 <= i < |w.steps| ==> EdgesKnown(w, w.steps[i]) && DepsKnown(w, w.steps[i]))
    && (exists i :: 0 <= i < |w.steps| && Returns(w.steps[i]))
    && !Cyclic(Adjacency(w.steps))
  }

  method ValidateStep(w: Workflow, step: Step, hasReturn0: bool) returns (r: Result<(), ValidationError>, hasReturn: bool)
    ensures r.Ok? <==> EdgesKnown(w, step) && DepsKnown(w, step)
    ensures r.Ok? ==> (hasReturn <==> hasReturn0 || Returns(step))
    ensures r.Err? ==> r.error.UnknownNode? && !HasStep(w, r.error.node)
  {
    hasReturn := hasReturn0;
    for i := 0 to |step.edges|
      invariant forall j :: 0 <= j < i && step.edges[j].target.ToStep? ==> HasStep(w, step.edges[j].target.id)
      invariant hasReturn <==> hasReturn0 || exists j :: 0 <= j < i && step.edges[j].target.Return?
    {
      match step.edges[i].target {
        case ToStep(id) =>
          if GetStep(w.steps, id).None? {
            return Err(UnknownNode(id, step.id)), hasReturn;
          }
        case Return =>
          hasReturn := true;
      }
    }
    for i := 0 to |step.dependsOn|
      invariant forall j :: 0 <= j < i ==> HasStep(w, step.dependsOn[j])
    {
      if GetStep(w.steps, step.dependsOn[i]).None? {
        return Err(UnknownNode(step.dependsOn[i], "depends_on:" + step.id)), hasReturn;
      }
    }
    r := Ok(());
  }

  /** `Workflow::validate` accepts exactly the well-formed workflows. */
  method ValidateWorkflow(w: Workflow) returns (r: Result<(), ValidationError>)
    ensures r.Ok? <==> WellFormed(w)
  {
    if GetStep(w.steps, w.entry).None? {
      return Err(NoEntryNode);
    }
    var hasReturn := false;
    for i := 0 to |w.steps|
      invariant forall j :: 0 <= j < i ==> EdgesKnown(w, w.steps[j]) && DepsKnown(w, w.steps[j])
      invariant hasReturn <==> exists j :: 0 <= j < i && Returns(w.steps[j])
    {
      r, hasReturn := ValidateStep(w, w.steps[i], hasReturn);
      if r.Err? {
        return;
      }
    }
    if !hasReturn {
      return Err(NoReturnNode);
    }
    r := DetectCycles(w);
  }
}
