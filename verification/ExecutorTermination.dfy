/**
  Every interleaving of the executor ends when no task can go round in circles inline: a rank
  drops with every event, and while the loop has not left some event that cancels nothing is
  always possible.
 */
module ExecutorTermination {
  import opened Wrappers
  import opened Graphs
  import opened Schema
  import opened Validator
  import opened Workflows
  import opened Compiler
  import opened Routing
  import opened InlineFlow
  import opened TaskLoop
  import opened Executor
  import opened ExecutorSafety

  function EdgeTotal(steps: seq<Step>): nat {
    if steps == [] then 0 else |steps[0].edges| + EdgeTotal(steps[1..])
  }

  lemma {:induction false} EdgesWithinTotal(steps: seq<Step>, step: Step)
    requires step in steps
    ensures |step.edges| <= EdgeTotal(steps)
  {
    if steps[0] != step {
      EdgesWithinTotal(steps[1..], step);
    }
  }

  // `n` times `cost`, by counting, so that one fewer is one `cost` less.
  function Times(n: nat, cost: nat): nat {
    if n == 0 then 0 else cost + Times(n - 1, cost)
  }

  lemma {:induction false} TimesMonotone(a: nat, b: nat, cost: nat)
    requires a <= b
    ensures Times(a, cost) <= Times(b, cost)
  {
    if a < b {
      TimesMonotone(a, b - 1, cost);
    }
  }

  // Every id a workflow can mention: its steps, and the targets of their edges, known or not.
  function TargetIds(steps: seq<Step>): (ids: set<string>)
    ensures |ids| <= EdgeTotal(steps)
    ensures forall i, id :: 0 <= i < |steps| && id in StepTargets(steps[i].edges) ==> id in ids
  {
    if steps == [] then {}
    else
      TargetsWithinEdges(steps[0].edges);
      assert forall i :: 0 < i < |steps| ==> steps[i] == steps[1..][i - 1];
      Elems(StepTargets(steps[0].edges)) + TargetIds(steps[1..])
  }

  lemma TargetsWithinEdges(edges: seq<StepEdge>)
    ensures |Elems(StepTargets(edges))| <= |edges|
  {
    TargetsFewer(edges);
    ElemsFewer(StepTargets(edges));
  }

  lemma {:induction false} TargetsFewer(edges: seq<StepEdge>)
    ensures |StepTargets(edges)| <= |edges|
  {
    if edges != [] {
      TargetsFewer(edges[1..]);
    }
  }

  lemma {:induction false} ElemsFewer(ids: seq<string>)
    ensures |Elems(ids)| <= |ids|
  {
    if ids != [] {
      var init := ids[..|ids| - 1];
      ElemsFewer(init);
      assert Elems(ids) == Elems(init) + {ids[|ids| - 1]};
    }
  }

  function KnownIds(w: Workflow): (ids: set<string>)
    ensures |ids| <= Spread(w)
  {
    IdSet(w.steps) + TargetIds(w.steps)
  }

  function Spread(w: Workflow): nat {
    |w.steps| + EdgeTotal(w.steps)
  }

  // What sending one message, being received included, is worth: one send, one receipt, and
  // one scan position per id that can be reachable.
  function SendCost(w: Workflow): nat {
    Spread(w) + 2
  }

  // Everything a task still owes after its last execution, its join included.
  function AnnounceCost(w: Workflow): nat {
    Times(EdgeTotal(w.steps) + 2, SendCost(w)) + 1
  }

  function StartCost(w: Workflow): nat {
    TotalCap(w.steps) + AnnounceCost(w)
  }

  ghost function TaskRank(w: Workflow, order: seq<string>, task: Task): nat {
    match task
    case Running(step, iteration, _) =>
      if At(w, order, step, iteration) then Fuel(w, order, step, iteration) + AnnounceCost(w) else 0
    case Sending(pending, _, _, _) => Times(|pending|, SendCost(w)) + 1
    case Joined(_) => 0
  }

  ghost function RankOf(w: Workflow, order: seq<string>): Task -> nat {
    t => TaskRank(w, order, t)
  }

  function Unstarted(w: Workflow, s: State): nat {
    if |s.started| <= |w.steps| then |w.steps| - |s.started| else 0
  }

  ghost function Work(w: Workflow, order: seq<string>, s: State): nat {
    Times(Unstarted(w, s), StartCost(w)) + Total(RankOf(w, order), s.tasks) + Times(|s.channel|, Spread(w) + 1)
  }

  ghost function Rank(w: Workflow, order: seq<string>, s: State): nat {
    match s.phase
    case Left => 0
    case Aborted => 0
    case Selecting => 1 + Work(w, order, s)
    case Scanning(todo) => 1 + Work(w, order, s) + |todo|
  }

  // ---- What the rank needs besides the executor's own invariant ----

  ghost predicate KnownMessages(w: Workflow, messages: seq<Msg>) {
    forall i :: 0 <= i < |messages| && messages[i].SpawnNext? ==> messages[i].id in KnownIds(w)
  }

  ghost predicate TaskRanked(w: Workflow, order: seq<string>, task: Task) {
    match task
    case Running(step, iteration, _) => At(w, order, step, iteration)
    case Sending(pending, _, _, _) => KnownMessages(w, pending)
    case Joined(_) => true
  }

  ghost predicate Ranked(w: Workflow, order: seq<string>, s: State) {
    && (forall i :: 0 <= i < |s.tasks| ==> TaskRanked(w, order, s.tasks[i]))
    && s.reachable <= KnownIds(w) && KnownMessages(w, s.channel)
  }

  lemma StepAt(w: Workflow, order: seq<string>, id: string)
    requires Guides(w, order) && HasStep(w, id)
    ensures At(w, order, GetStep(w.steps, id).value, 0)
  {
    var i :| 0 <= i < |w.steps| && w.steps[i] == GetStep(w.steps, id).value;
    assert w.steps[i].id in order;
  }

  lemma {:induction false} StepIdsAreTargets(targets: seq<EdgeTarget>, id: string)
    requires id in StepIds(targets)
    ensures ToStep(id) in targets
  {
    var n := |targets| - 1;
    if targets[n] != ToStep(id) {
      StepIdsAreTargets(targets[..n], id);
    }
  }

  // What a task announces after evaluating its edges.
  lemma SuccessAnnounces(w: Workflow, step: Step, conditions: Eval)
    requires AfterSuccess(w, step, conditions).Finish?
    ensures var spawn := AfterSuccess(w, step, conditions).spawn;
      && |spawn| <= |step.edges| + 1
      && forall id :: id in spawn ==> id in StepTargets(step.edges)
  {
    if EdgeTargets(step.edges, conditions).Some? {
      TargetsAreEdges(step.edges, conditions);
      var targets := EdgeTargets(step.edges, conditions).value;
      forall id | id in FollowTargets(w, targets).spawn ensures ToStep(id) in targets {
        if |targets| != 1 {
          StepIdsAreTargets(targets, id);
        }
      }
    }
  }

  lemma Announces(w: Workflow, step: Step, iteration: nat, outcome: Outcome)
    requires Advance(w, step, iteration, outcome).Finish?
    ensures var spawn := Advance(w, step, iteration, outcome).spawn;
      spawn == [] || (outcome.ToolOk? && AfterSuccess(w, step, outcome.conditions) == Advance(w, step, iteration, outcome))
  {
  }

  lemma AnnouncedKnown(w: Workflow, step: Step, iteration: nat, outcome: Outcome)
    requires step in w.steps && Advance(w, step, iteration, outcome).Finish?
    ensures var spawn := Advance(w, step, iteration, outcome).spawn;
      |spawn| <= EdgeTotal(w.steps) + 1 && forall id :: id in spawn ==> id in KnownIds(w)
  {
    Announces(w, step, iteration, outcome);
    if Advance(w, step, iteration, outcome).spawn != [] {
      SuccessAnnounces(w, step, outcome.conditions);
      EdgesWithinTotal(w.steps, step);
      var i :| 0 <= i < |w.steps| && w.steps[i] == step;
    }
  }

  lemma MessagesKnown(w: Workflow, node: string, spawn: seq<string>)
    requires forall id :: id in spawn ==> id in KnownIds(w)
    ensures KnownMessages(w, Messages(node, spawn))
  {
    var ms := Messages(node, spawn);
    forall i | 0 <= i < |ms| && ms[i].SpawnNext? ensures ms[i].id in KnownIds(w) {
      assert spawn[i] in spawn;
    }
  }

  lemma TurnKeepsRanked(w: Workflow, order: seq<string>, task: Task, outcome: Outcome)
    requires task.Running? && TaskRanked(w, order, task)
    ensures TaskRanked(w, order, AfterTurn(w, task, outcome))
  {
    var m := Advance(w, task.step, task.iteration, outcome);
    if m.Continue? {
      AdvanceDescends(w, order, task.step, task.iteration, outcome);
    } else {
      AnnouncedKnown(w, task.step, task.iteration, outcome);
      MessagesKnown(w, task.step.id, m.spawn);
    }
  }

  lemma TrySpawnKeepsRanked(w: Workflow, order: seq<string>, s: State, id: string)
    requires Guides(w, order) && Ranked(w, order, s)
    ensures Ranked(w, order, TrySpawn(w, s, id))
  {
    if HasStep(w, id) {
      StepAt(w, order, id);
    }
  }

  lemma OneTaskKeepsRanked(w: Workflow, order: seq<string>, s: State, t: nat, task: Task)
    requires Ranked(w, order, s) && t < |s.tasks| && TaskRanked(w, order, task)
    ensures Ranked(w, order, s.(tasks := s.tasks[t := task]))
  {
  }

  lemma ExecKeepsRanked(w: Workflow, order: seq<string>, s: State, t: nat, outcome: Outcome)
    requires Ranked(w, order, s) && t < |s.tasks| && s.tasks[t].Running?
    ensures Ranked(w, order, ApplyExec(w, s, t, outcome))
  {
    assert TaskRanked(w, order, s.tasks[t]);
    TurnKeepsRanked(w, order, s.tasks[t], outcome);
    OneTaskKeepsRanked(w, order, s, t, AfterTurn(w, s.tasks[t], outcome));
  }

  lemma SendKeepsRanked(w: Workflow, order: seq<string>, s: State, t: nat)
    requires Ranked(w, order, s) && t < |s.tasks| && s.tasks[t].Sending? && s.tasks[t].pending != []
    ensures Ranked(w, order, ApplySend(s, t))
  {
    assert TaskRanked(w, order, s.tasks[t]);
    OneTaskKeepsRanked(w, order, s, t, ApplySend(s, t).tasks[t]);
  }

  lemma ScanKeepsRanked(cfg: EngineConfig, w: Workflow, order: seq<string>, s: State, id: string)
    requires Guides(w, order) && Ranked(w, order, s) && s.phase.Scanning?
    ensures Ranked(w, order, ApplyScan(cfg, w, s, id))
  {
    TrySpawnKeepsRanked(w, order, s, id);
  }

  lemma StepKeepsRanked(cfg: EngineConfig, w: Workflow, order: seq<string>, s: State, e: Event)
    requires Guides(w, order) && Ranked(w, order, s) && Enabled(cfg, w, s, e)
    ensures Ranked(w, order, Apply(cfg, w, s, e))
  {
    match e
    case Exec(t, outcome) => ExecKeepsRanked(w, order, s, t, outcome);
    case Send(t) => SendKeepsRanked(w, order, s, t);
    case Join(t) => OneTaskKeepsRanked(w, order, s, t, Joined(s.tasks[t].announced));
    case Receive => ReceiveKeepsRanked(cfg, w, order, s);
    case Scan(id) => ScanKeepsRanked(cfg, w, order, s, id);
    case Cancel =>
  }

  lemma ReceiveKeepsRanked(cfg: EngineConfig, w: Workflow, order: seq<string>, s: State)
    requires Guides(w, order) && Ranked(w, order, s) && s.channel != []
    ensures Ranked(w, order, ApplyReceive(cfg, w, s))
  {
    if s.channel[0].SpawnNext? {
      var id := s.channel[0].id;
      var seen := s.(channel := s.channel[1..], reachable := s.reachable + {id});
      assert Ranked(w, order, seen);
      TrySpawnKeepsRanked(w, order, seen, id);
    }
  }

  lemma InitRanked(w: Workflow, order: seq<string>)
    requires Guides(w, order) && HasStep(w, w.entry)
    ensures Ranked(w, order, Init(w))
  {
    StepAt(w, order, w.entry);
  }

  // ---- Each event lowers the rank ----

  lemma AnnouncingIsPaidFor(w: Workflow, spawn: seq<string>, node: string)
    requires |spawn| <= EdgeTotal(w.steps) + 1
    ensures Times(|Messages(node, spawn)|, SendCost(w)) + 1 <= AnnounceCost(w)
  {
    TimesMonotone(|Messages(node, spawn)|, EdgeTotal(w.steps) + 2, SendCost(w));
  }

  lemma TurnLowersRank(w: Workflow, order: seq<string>, task: Task, outcome: Outcome)
    requires task.Running? && At(w, order, task.step, task.iteration)
    ensures TaskRank(w, order, AfterTurn(w, task, outcome)) < TaskRank(w, order, task)
  {
    var m := Advance(w, task.step, task.iteration, outcome);
    assert Fuel(w, order, task.step, task.iteration) > 0;
    assert TaskRank(w, order, task) > AnnounceCost(w);
    if m.Continue? {
      AdvanceDescends(w, order, task.step, task.iteration, outcome);
    } else {
      AnnouncedKnown(w, task.step, task.iteration, outcome);
      AnnouncingIsPaidFor(w, m.spawn, task.step.id);
    }
  }

  lemma ExecLowers(w: Workflow, order: seq<string>, s: State, t: nat, outcome: Outcome)
    requires Ranked(w, order, s) && t < |s.tasks| && s.tasks[t].Running?
    ensures Work(w, order, ApplyExec(w, s, t, outcome)) < Work(w, order, s)
  {
    assert TaskRanked(w, order, s.tasks[t]);
    TurnLowersRank(w, order, s.tasks[t], outcome);
    TotalUpdate(RankOf(w, order), s.tasks, t, AfterTurn(w, s.tasks[t], outcome));
  }

  lemma SendLowers(w: Workflow, order: seq<string>, s: State, t: nat)
    requires t < |s.tasks| && s.tasks[t].Sending? && s.tasks[t].pending != []
    ensures Work(w, order, ApplySend(s, t)) < Work(w, order, s)
  {
    var s' := ApplySend(s, t);
    TotalUpdate(RankOf(w, order), s.tasks, t, s'.tasks[t]);
  }

  lemma JoinLowers(cfg: EngineConfig, w: Workflow, order: seq<string>, s: State, t: nat)
    requires Enabled(cfg, w, s, Join(t))
    ensures Rank(w, order, ApplyJoin(cfg, s, t)) < Rank(w, order, s)
  {
    TotalUpdate(RankOf(w, order), s.tasks, t, Joined(s.tasks[t].announced));
    var joined := s.(tasks := s.tasks[t := Joined(s.tasks[t].announced)], stepsCount := s.stepsCount + s.tasks[t].executed);
    assert Work(w, order, joined) < Work(w, order, s);
    SettleKeepsWork(w, order, joined);
  }

  // Starting a task spends what was set aside for it.
  lemma TrySpawnDoesNotRaise(w: Workflow, order: seq<string>, s: State, id: string)
    requires Guides(w, order) && StartsOk(w, s)
    ensures Work(w, order, TrySpawn(w, s, id)) <= Work(w, order, s)
  {
    var s' := TrySpawn(w, s, id);
    if s' != s {
      var step := GetStep(w.steps, id).value;
      StepAt(w, order, id);
      FuelBound(w, order, step);
      StartedWithinSteps(w, s);
      TotalAppend(RankOf(w, order), s.tasks, Running(step, 0, 0));
    }
  }

  lemma ReceiptSpendsOneMessage(w: Workflow, order: seq<string>, s: State)
    requires s.channel != []
    ensures Work(w, order, s.(channel := s.channel[1..])) == Work(w, order, s) - (Spread(w) + 1)
  {
  }

  lemma ReceiveNodeLowers(cfg: EngineConfig, w: Workflow, order: seq<string>, s: State)
    requires Ranked(w, order, s) && Enabled(cfg, w, s, Receive) && s.channel[0].Node?
    ensures Rank(w, order, ApplyReceive(cfg, w, s)) < Rank(w, order, s)
  {
    ReceiptSpendsOneMessage(w, order, s);
    SubsetSize(s.reachable, KnownIds(w));
    assert Work(w, order, ApplyReceive(cfg, w, s)) == Work(w, order, s.(channel := s.channel[1..]));
  }

  lemma ReceiveSpawnNextLowers(cfg: EngineConfig, w: Workflow, order: seq<string>, s: State)
    requires Guides(w, order) && Inv(cfg, w, s) && Enabled(cfg, w, s, Receive) && s.channel[0].SpawnNext?
    ensures Rank(w, order, ApplyReceive(cfg, w, s)) < Rank(w, order, s)
  {
    ReceiptSpendsOneMessage(w, order, s);
    var id := s.channel[0].id;
    var seen := s.(channel := s.channel[1..], reachable := s.reachable + {id});
    assert Work(w, order, seen) == Work(w, order, s.(channel := s.channel[1..]));
    TrySpawnDoesNotRaise(w, order, seen, id);
    var next := if Active(s) < cfg.maxConcurrentNodes then TrySpawn(w, seen, id) else seen;
    SettleKeepsWork(w, order, next);
  }

  lemma SettleKeepsWork(w: Workflow, order: seq<string>, s: State)
    ensures Work(w, order, Settle(s)) == Work(w, order, s)
    ensures Rank(w, order, Settle(s)) <= 1 + Work(w, order, s)
  {
  }

  lemma ScanLowers(cfg: EngineConfig, w: Workflow, order: seq<string>, s: State, id: string)
    requires Guides(w, order) && Inv(cfg, w, s) && Enabled(cfg, w, s, Scan(id))
    ensures Rank(w, order, ApplyScan(cfg, w, s, id)) < Rank(w, order, s)
  {
    var todo := s.phase.todo - {id};
    SmallerSet(todo, s.phase.todo);
    var next := TrySpawn(w, s, id);
    TrySpawnDoesNotRaise(w, order, s, id);
    hide Guides, Inv, TrySpawn;
    SettleKeepsWork(w, order, s);
    SettleKeepsWork(w, order, next);
    assert Work(w, order, next.(phase := Scanning(todo))) == Work(w, order, next);
  }

  lemma StepLowers(cfg: EngineConfig, w: Workflow, order: seq<string>, s: State, e: Event)
    requires Guides(w, order) && Inv(cfg, w, s) && Ranked(w, order, s) && Enabled(cfg, w, s, e)
    ensures Rank(w, order, Apply(cfg, w, s, e)) < Rank(w, order, s)
  {
    match e
    case Exec(t, outcome) => ExecLowers(w, order, s, t, outcome);
    case Send(t) => SendLowers(w, order, s, t);
    case Join(t) => JoinLowers(cfg, w, order, s, t);
    case Receive =>
      if s.channel[0].Node? {
        ReceiveNodeLowers(cfg, w, order, s);
      } else {
        ReceiveSpawnNextLowers(cfg, w, order, s);
      }
    case Scan(id) => ScanLowers(cfg, w, order, s, id);
    case Cancel =>
  }

  /** No run is longer than the rank it starts from. */
  lemma {:induction false} RunsAreBounded(cfg: EngineConfig, w: Workflow, order: seq<string>, s: State, events: seq<Event>)
    requires Guides(w, order) && Inv(cfg, w, s) && Ranked(w, order, s) && IsRun(cfg, w, s, events)
    ensures |events| + Rank(w, order, After(cfg, w, s, events)) <= Rank(w, order, s)
    decreases |events|
  {
    if events != [] {
      var next := Apply(cfg, w, s, events[0]);
      StepKeeps(cfg, w, s, events[0]);
      StepKeepsRanked(cfg, w, order, s, events[0]);
      StepLowers(cfg, w, order, s, events[0]);
      RunsAreBounded(cfg, w, order, next, events[1..]);
    }
  }

  // ---- Progress ----

  /** Until the loop has left, something can happen that cancels nothing. */
  lemma NoDeadlock(cfg: EngineConfig, w: Workflow, s: State) returns (e: Event)
    requires cfg.finishedChannelSize > 0
    requires Inv(cfg, w, s) && (s.phase.Selecting? || (s.phase.Scanning? && s.phase.todo != {}))
    requires s.phase.Selecting? ==> !(s.spawned == s.finished && Active(s) == 0)
    ensures Enabled(cfg, w, s, e) && !e.Cancel? && (e.Exec? ==> !e.outcome.Cancelled?)
  {
    if s.phase.Scanning? {
      var id :| id in s.phase.todo;
      e := Scan(id);
    } else if s.channel != [] {
      e := Receive;
    } else {
      var t: nat;
      if Active(s) > 0 {
        t := TotalPositive(ActiveWeight, s.tasks);
      } else {
        t := TotalPositive(UnsentWeight, s.tasks);
      }
      match s.tasks[t]
      case Running(_, _, _) => e := Exec(t, ToolErr);
      case Sending(pending, _, _, _) => e := if pending == [] then Join(t) else Send(t);
    }
  }

  // What the loop keeps about being worth another turn.
  ghost predicate Awake(s: State) {
    && (s.phase.Selecting? ==> !(s.spawned == s.finished && Active(s) == 0))
    && (s.phase.Scanning? ==> s.phase.todo != {})
  }

  lemma ActiveAfterUpdate(s: State, t: nat, x: Task)
    requires t < |s.tasks| && !s.tasks[t].Joined? && !x.Joined?
    ensures Total(ActiveWeight, s.tasks[t := x]) == Active(s)
  {
    TotalUpdate(ActiveWeight, s.tasks, t, x);
  }

  lemma StepKeepsAwake(cfg: EngineConfig, w: Workflow, s: State, e: Event)
    requires Enabled(cfg, w, s, e) && Awake(s) && s.reachable != {}
    ensures Awake(Apply(cfg, w, s, e)) && Apply(cfg, w, s, e).reachable != {}
  {
    match e
    case Exec(t, outcome) => ActiveAfterUpdate(s, t, AfterTurn(w, s.tasks[t], outcome));
    case Send(t) => ActiveAfterUpdate(s, t, ApplySend(s, t).tasks[t]);
    case Join(t) =>
    case Receive =>
    case Scan(id) =>
    case Cancel =>
  }

  lemma {:induction false} RunKeepsAwake(cfg: EngineConfig, w: Workflow, s: State, events: seq<Event>)
    requires IsRun(cfg, w, s, events) && Awake(s) && s.reachable != {}
    ensures Awake(After(cfg, w, s, events))
    decreases |events|
  {
    if events != [] {
      StepKeepsAwake(cfg, w, s, events[0]);
      RunKeepsAwake(cfg, w, Apply(cfg, w, s, events[0]), events[1..]);
    }
  }

  // ---- Every run ends ----

  // No event but a cancellation is left.
  ghost predicate Stuck(cfg: EngineConfig, w: Workflow, s: State) {
    forall e :: Enabled(cfg, w, s, e) ==> e.Cancel?
  }

  /** A run that cannot go on has left the loop or aborted, whatever the workflow. */
  lemma StuckHasEnded(cfg: EngineConfig, w: Workflow, events: seq<Event>)
    requires HasStep(w, w.entry) && cfg.finishedChannelSize > 0
    requires IsRun(cfg, w, Init(w), events) && Stuck(cfg, w, After(cfg, w, Init(w), events))
    ensures var phase := After(cfg, w, Init(w), events).phase; phase.Left? || phase.Aborted?
  {
    var s := After(cfg, w, Init(w), events);
    InitInv(cfg, w);
    RunKeeps(cfg, w, Init(w), events);
    RunKeepsAwake(cfg, w, Init(w), events);
    if s.phase.Selecting? || s.phase.Scanning? {
      var e := NoDeadlock(cfg, w, s);
    }
  }

  /**
    A workflow with a known entry and an acyclic inline graph terminates under every
    interleaving and every answer of the tools: all runs share one bound, and a run that
    cannot go on has left the loop or aborted.
   */
  lemma InlineAcyclicTerminates(cfg: EngineConfig, w: Workflow) returns (bound: nat)
    requires HasStep(w, w.entry) && !Cyclic(InlineGraph(w)) && cfg.finishedChannelSize > 0
    ensures forall events :: IsRun(cfg, w, Init(w), events) ==> |events| <= bound
    ensures forall events :: IsRun(cfg, w, Init(w), events) && Stuck(cfg, w, After(cfg, w, Init(w), events)) ==>
              var phase := After(cfg, w, Init(w), events).phase; phase.Left? || phase.Aborted?
  {
    var order := AcyclicIsGuided(w);
    bound := Rank(w, order, Init(w));
    InitInv(cfg, w);
    InitRanked(w, order);
    forall events | IsRun(cfg, w, Init(w), events) ensures |events| <= bound {
      RunsAreBounded(cfg, w, order, Init(w), events);
    }
    forall events | IsRun(cfg, w, Init(w), events) && Stuck(cfg, w, After(cfg, w, Init(w), events))
      ensures var phase := After(cfg, w, Init(w), events).phase; phase.Left? || phase.Aborted?
    {
      StuckHasEnded(cfg, w, events);
    }
  }

  // ---- Running round a cycle ----

  // The entry's task is on its own, about to execute step `id`.
  predicate AtStep(w: Workflow, s: State, id: string) {
    s.phase.Selecting? && |s.tasks| == 1 && HasStep(w, id)
    && s.tasks[0].Running? && s.tasks[0].step == GetStep(w.steps, id).value && s.tasks[0].iteration == 0
  }

  lemma MoveRuns(cfg: EngineConfig, w: Workflow, s: State, a: string, b: string) returns (e: Event)
    requires AtStep(w, s, a) && Edge(InlineGraph(w), a, b)
    ensures Enabled(cfg, w, s, e) && AtStep(w, Apply(cfg, w, s, e), b)
  {
    hide InlineGraph, Advance;
    InlineEdgeIff(w, a, b);
    var outcome := InlineIsMove(w, a, b);
    e := Exec(0, outcome);
  }

  lemma RunPrepend(cfg: EngineConfig, w: Workflow, s: State, e: Event, rest: seq<Event>)
    requires Enabled(cfg, w, s, e) && IsRun(cfg, w, Apply(cfg, w, s, e), rest)
    ensures IsRun(cfg, w, s, [e] + rest)
  {
    assert ([e] + rest)[1..] == rest;
  }

  lemma {:induction false} CycleRuns(cfg: EngineConfig, w: Workflow, s: State, p: seq<string>, at: nat, n: nat)
    returns (events: seq<Event>)
    requires IsCycle(InlineGraph(w), p) && at < |p| - 1 && AtStep(w, s, p[at])
    ensures IsRun(cfg, w, s, events) && |events| == n
    decreases n
  {
    hide InlineGraph, Enabled, Apply, AtStep;
    if n == 0 {
      events := [];
    } else {
      var e := MoveRuns(cfg, w, s, p[at], p[at + 1]);
      var next := if at + 1 == |p| - 1 then 0 else at + 1;
      assert p[next] == p[at + 1];
      var rest := CycleRuns(cfg, w, Apply(cfg, w, s, e), p, next, n - 1);
      RunPrepend(cfg, w, s, e, rest);
      events := [e] + rest;
    }
  }

  lemma {:induction false} PathRuns(cfg: EngineConfig, w: Workflow, s: State, q: seq<string>, p: seq<string>, n: nat)
    returns (events: seq<Event>)
    requires IsPath(InlineGraph(w), q) && AtStep(w, s, q[0]) && IsCycle(InlineGraph(w), p) && q[|q| - 1] == p[0]
    ensures IsRun(cfg, w, s, events) && |events| >= n
    decreases |q|
  {
    hide InlineGraph, Enabled, Apply, AtStep;
    if |q| == 1 {
      events := CycleRuns(cfg, w, s, p, 0, n);
    } else {
      var e := MoveRuns(cfg, w, s, q[0], q[1]);
      var rest := PathRuns(cfg, w, Apply(cfg, w, s, e), q[1..], p, n);
      RunPrepend(cfg, w, s, e, rest);
      events := [e] + rest;
    }
  }

  /** A cycle the entry can reach inline makes the executor run on: there are runs of any length. */
  lemma ReachedCycleRunsOn(cfg: EngineConfig, w: Workflow, p: seq<string>, n: nat) returns (events: seq<Event>)
    requires HasStep(w, w.entry) && IsCycle(InlineGraph(w), p) && Reaches(InlineGraph(w), w.entry, p[0])
    ensures IsRun(cfg, w, Init(w), events) && |events| >= n
  {
    hide InlineGraph;
    var q :| IsPath(InlineGraph(w), q) && q[0] == w.entry && q[|q| - 1] == p[0];
    events := PathRuns(cfg, w, Init(w), q, p, n);
  }

  // ---- From the schema validator to the end of the run ----

  /** In particular what the schema validator accepts, once compiled. */
  lemma AcceptedWorkflowsTerminate(cfg: EngineConfig, schema: WorkflowSchema, w: Workflow) returns (bound: nat)
    requires Accepted(schema) && CompiledFrom(schema, w) && cfg.finishedChannelSize > 0
    ensures HasStep(w, w.entry)
    ensures forall events :: IsRun(cfg, w, Init(w), events) ==> |events| <= bound
    ensures forall events :: IsRun(cfg, w, Init(w), events) && Stuck(cfg, w, After(cfg, w, Init(w), events)) ==>
              var phase := After(cfg, w, Init(w), events).phase; phase.Left? || phase.Aborted?
  {
    CompilationPreservesWellFormedness(schema, w);
    AcceptedIsInlineAcyclic(schema, w);
    bound := InlineAcyclicTerminates(cfg, w);
  }

  /** And what it leaves behind is quiescent, with room for every step. */
  lemma AcceptedWorkflowsLeaveQuiescent(cfg: EngineConfig, schema: WorkflowSchema, w: Workflow, events: seq<Event>)
    requires Accepted(schema) && CompiledFrom(schema, w) && HasStep(w, w.entry)
    requires IsRun(cfg, w, Init(w), events) && After(cfg, w, Init(w), events).phase.Left?
    ensures var s := After(cfg, w, Init(w), events);
      && Drained(s) && Distinct(s.started)
      && (cfg.maxConcurrentNodes >= |schema.nodes| ==> forall id :: id in s.reachable ==> CannotStart(w, s, id))
  {
    LeavingIsQuiescent(cfg, w, events);
  }
}
