/**
  The parallel executor as a transition system: the `select!` loop of `execute`, the spawned
  tasks, and the bounded FIFO channel between them.  An event is one arm of the loop, one
  turn of a task, one send, or one position of the scan over reachable nodes; every
  interleaving is a sequence of enabled events.
 */
module Executor {
  import opened Wrappers
  import opened Graphs
  import opened Validator
  import opened Workflows
  import opened Compiler
  import opened TaskLoop

  datatype Msg = Node(id: string) | SpawnNext(id: string)

  // A task by the number of its spawn.  `announced` counts the `Node` messages it has sent.
  datatype Task =
    | Running(step: Step, iteration: nat, executed: nat)
    | Sending(pending: seq<Msg>, ok: bool, executed: nat, announced: nat)
    | Joined(announced: nat)

  datatype Phase = Selecting | Scanning(todo: set<string>) | Left | Aborted

  // `started` is `executed_nodes` in insertion order, `completed` the keys of the two state maps.
  datatype State = State(
    phase: Phase, reachable: set<string>, started: seq<string>,
    spawned: nat, finished: nat, stepsCount: nat,
    tasks: seq<Task>, channel: seq<Msg>, completed: set<string>)

  // ---- can_run ----

  function CompletedAmong(deps: seq<string>, completed: set<string>): (n: nat)
    ensures n <= |deps|
    ensures n == |deps| <==> forall d :: d in deps ==> d in completed
  {
    if deps == [] then 0
    else (if deps[|deps| - 1] in completed then 1 else 0) + CompletedAmong(deps[..|deps| - 1], completed)
  }

  predicate MayRun(step: Step, completed: set<string>) {
    step.dependsOn == [] ||
    var n := CompletedAmong(step.dependsOn, completed);
    match step.join
    case All => n == |step.dependsOn|
    case Any => n > 0
    case Quorum(min) => n >= min
    case Lenient => true
  }

  // The listed dependencies that are done, by position.
  function DonePositions(deps: seq<string>, completed: set<string>): set<nat> {
    set i: nat | i < |deps| && deps[i] in completed
  }

  /**
    What a join policy demands: all dependencies, some, so many, or none.  A step without
    dependencies waits for nothing.
   */
  ghost predicate PolicyMet(step: Step, completed: set<string>) {
    step.dependsOn == [] ||
    match step.join
    case All => forall d :: d in step.dependsOn ==> d in completed
    case Any => exists d :: d in step.dependsOn && d in completed
    case Quorum(min) => |DonePositions(step.dependsOn, completed)| >= min
    case Lenient => true
  }

  lemma {:induction false} CountsPositions(deps: seq<string>, completed: set<string>)
    ensures CompletedAmong(deps, completed) == |DonePositions(deps, completed)|
    decreases |deps|
  {
    if deps == [] {
      assert DonePositions(deps, completed) == {};
    } else {
      var init, last := deps[..|deps| - 1], |deps| - 1;
      CountsPositions(init, completed);
      assert DonePositions(deps, completed)
          == DonePositions(init, completed) + if deps[last] in completed then {last} else {};
    }
  }

  /** The policy is met exactly when the count of completed dependencies says so. */
  lemma MayRunIff(step: Step, completed: set<string>)
    ensures MayRun(step, completed) <==> PolicyMet(step, completed)
  {
    var deps := step.dependsOn;
    var done := DonePositions(deps, completed);
    CountsPositions(deps, completed);
    if d :| d in deps && d in completed {
      var i: nat :| i < |deps| && deps[i] == d;
      assert i in done;
    }
    if done != {} {
      var i :| i in done;
      assert deps[i] in deps;
    }
  }

  method CanRun(step: Step, completed: set<string>) returns (b: bool)
    ensures b == MayRun(step, completed)
    ensures b <==> PolicyMet(step, completed)
  {
    hide PolicyMet;
    MayRunIff(step, completed);
    if step.dependsOn == [] {
      return true;
    }
    var completedDeps := 0;
    for i := 0 to |step.dependsOn|
      invariant completedDeps == CompletedAmong(step.dependsOn[..i], completed)
    {
      assert step.dependsOn[..i + 1][..i] == step.dependsOn[..i];
      if step.dependsOn[i] in completed {
        completedDeps := completedDeps + 1;
      }
    }
    assert step.dependsOn[..|step.dependsOn|] == step.dependsOn;
    match step.join {
      case All => b := completedDeps == |step.dependsOn|;
      case Any => b := completedDeps > 0;
      case Quorum(min) => b := completedDeps >= min;
      case Lenient => b := true;
    }
  }

  lemma {:induction false} CompletedGrows(deps: seq<string>, before: set<string>, after: set<string>)
    requires before <= after
    ensures CompletedAmong(deps, before) <= CompletedAmong(deps, after)
  {
    if deps != [] {
      CompletedGrows(deps[..|deps| - 1], before, after);
    }
  }

  // Once a step may run it may run for good.
  lemma MayRunStays(step: Step, before: set<string>, after: set<string>)
    requires before <= after && MayRun(step, before)
    ensures MayRun(step, after)
  {
    CompletedGrows(step.dependsOn, before, after);
  }

  // ---- Events ----

  datatype Event =
    | Exec(t: nat, outcome: Outcome)
    | Send(t: nat)
    | Join(t: nat)
    | Receive
    | Scan(id: string)
    | Cancel

  function Total(f: Task -> nat, ts: seq<Task>): nat {
    if ts == [] then 0 else Total(f, ts[..|ts| - 1]) + f(ts[|ts| - 1])
  }

  // `active_tasks.len()` counts tasks until they are joined.
  function ActiveWeight(t: Task): nat {
    if t.Joined? then 0 else 1
  }

  // A task that has not sent its `Node` yet.
  function UnsentWeight(t: Task): nat {
    if t.Running? || (t.Sending? && t.pending != []) then 1 else 0
  }

  function Active(s: State): nat {
    Total(ActiveWeight, s.tasks)
  }

  function Unsent(s: State): nat {
    Total(UnsentWeight, s.tasks)
  }

  function Init(w: Workflow): State
    requires HasStep(w, w.entry)
  {
    State(Selecting, {w.entry}, [w.entry], 1, 0, 0, [Running(GetStep(w.steps, w.entry).value, 0, 0)], [], {"input"})
  }

  // The check at the bottom of the loop.
  function Settle(s: State): State {
    s.(phase := if s.spawned == s.finished && Active(s) == 0 then Left else Selecting)
  }

  function Messages(node: string, spawn: seq<string>): (ms: seq<Msg>)
    ensures |ms| == |spawn| + 1 && ms[|spawn|] == Node(node)
    ensures forall i :: 0 <= i < |spawn| ==> ms[i] == SpawnNext(spawn[i])
  {
    seq(|spawn|, i requires 0 <= i < |spawn| => SpawnNext(spawn[i])) + [Node(node)]
  }

  function AfterTurn(w: Workflow, task: Task, outcome: Outcome): Task
    requires task.Running?
  {
    var executed := if outcome.Cancelled? then task.executed else task.executed + 1;
    match Advance(w, task.step, task.iteration, outcome)
    case Continue(step, iteration) => Running(step, iteration, executed)
    case Finish(spawn, ok) => Sending(Messages(task.step.id, spawn), ok, executed, 0)
  }

  function SpawnStep(s: State, step: Step): State {
    s.(started := s.started + [step.id], spawned := s.spawned + 1, tasks := s.tasks + [Running(step, 0, 0)])
  }

  // Start a step unless it was started before or may not run yet.
  function TrySpawn(w: Workflow, s: State, id: string): State {
    match GetStep(w.steps, id)
    case None => s
    case Some(step) => if id !in s.started && MayRun(step, s.completed) then SpawnStep(s, step) else s
  }

  predicate Enabled(cfg: EngineConfig, w: Workflow, s: State, e: Event) {
    match e
    case Exec(t, _) => (s.phase.Selecting? || s.phase.Scanning?) && t < |s.tasks| && s.tasks[t].Running?
    case Send(t) =>
      && (s.phase.Selecting? || s.phase.Scanning?) && t < |s.tasks|
      && s.tasks[t].Sending? && s.tasks[t].pending != [] && |s.channel| < cfg.finishedChannelSize
    case Join(t) => s.phase.Selecting? && t < |s.tasks| && s.tasks[t].Sending? && s.tasks[t].pending == []
    case Receive => s.phase.Selecting? && s.channel != []
    case Scan(id) => s.phase.Scanning? && id in s.phase.todo
    case Cancel => s.phase.Selecting?
  }

  function ApplyExec(w: Workflow, s: State, t: nat, outcome: Outcome): State
    requires t < |s.tasks| && s.tasks[t].Running?
  {
    s.(tasks := s.tasks[t := AfterTurn(w, s.tasks[t], outcome)],
       completed := s.completed + Writes(s.tasks[t].step, outcome))
  }

  function ApplySend(s: State, t: nat): State
    requires t < |s.tasks| && s.tasks[t].Sending? && s.tasks[t].pending != []
  {
    var task := s.tasks[t];
    var announced := if task.pending[0].Node? then task.announced + 1 else task.announced;
    s.(tasks := s.tasks[t := task.(pending := task.pending[1..], announced := announced)],
       channel := s.channel + [task.pending[0]])
  }

  function ApplyJoin(cfg: EngineConfig, s: State, t: nat): State
    requires t < |s.tasks| && s.tasks[t].Sending?
  {
    var task := s.tasks[t];
    var joined := s.(tasks := s.tasks[t := Joined(task.announced)]);
    if !task.ok then joined.(phase := Aborted)
    else if s.stepsCount + task.executed > cfg.maxSteps then joined.(phase := Aborted)
    else Settle(joined.(stepsCount := s.stepsCount + task.executed))
  }

  function ApplyReceive(cfg: EngineConfig, w: Workflow, s: State): State
    requires s.channel != []
  {
    var rest := s.(channel := s.channel[1..]);
    match s.channel[0]
    case Node(_) => rest.(finished := s.finished + 1, phase := Scanning(s.reachable))
    case SpawnNext(id) =>
      var seen := rest.(reachable := s.reachable + {id});
      Settle(if Active(s) < cfg.maxConcurrentNodes then TrySpawn(w, seen, id) else seen)
  }

  // One position of the scan; at capacity the scan ends.
  function ApplyScan(cfg: EngineConfig, w: Workflow, s: State, id: string): State
    requires s.phase.Scanning?
  {
    if Active(s) >= cfg.maxConcurrentNodes then Settle(s)
    else
      var todo := s.phase.todo - {id};
      var next := TrySpawn(w, s, id);
      if todo == {} then Settle(next) else next.(phase := Scanning(todo))
  }

  function Apply(cfg: EngineConfig, w: Workflow, s: State, e: Event): State
    requires Enabled(cfg, w, s, e)
  {
    match e
    case Exec(t, outcome) => ApplyExec(w, s, t, outcome)
    case Send(t) => ApplySend(s, t)
    case Join(t) => ApplyJoin(cfg, s, t)
    case Receive => ApplyReceive(cfg, w, s)
    case Scan(id) => ApplyScan(cfg, w, s, id)
    case Cancel => s.(phase := Aborted)
  }

  // ---- Runs ----

  predicate IsRun(cfg: EngineConfig, w: Workflow, s: State, events: seq<Event>)
    decreases |events|
  {
    events == [] || (Enabled(cfg, w, s, events[0]) && IsRun(cfg, w, Apply(cfg, w, s, events[0]), events[1..]))
  }

  function After(cfg: EngineConfig, w: Workflow, s: State, events: seq<Event>): State
    requires IsRun(cfg, w, s, events)
    decreases |events|
  {
    if events == [] then s else After(cfg, w, Apply(cfg, w, s, events[0]), events[1..])
  }

  // ---- Sums over tasks ----

  lemma {:induction false} TotalAppend(f: Task -> nat, ts: seq<Task>, x: Task)
    ensures Total(f, ts + [x]) == Total(f, ts) + f(x)
  {
    assert (ts + [x])[..|ts|] == ts;
  }

  lemma {:induction false} TotalUpdate(f: Task -> nat, ts: seq<Task>, i: nat, x: Task)
    requires i < |ts|
    ensures Total(f, ts[i := x]) + f(ts[i]) == Total(f, ts) + f(x)
  {
    var init := ts[..|ts| - 1];
    if i == |ts| - 1 {
      assert ts[i := x][..|ts| - 1] == init;
    } else {
      assert ts[i := x][..|ts| - 1] == init[i := x];
      TotalUpdate(f, init, i, x);
    }
  }

  lemma {:induction false} TotalAtLeast(f: Task -> nat, ts: seq<Task>, i: nat)
    requires i < |ts|
    ensures f(ts[i]) <= Total(f, ts)
  {
    if i < |ts| - 1 {
      TotalAtLeast(f, ts[..|ts| - 1], i);
    }
  }

  lemma {:induction false} TotalPositive(f: Task -> nat, ts: seq<Task>) returns (i: nat)
    requires Total(f, ts) > 0
    ensures i < |ts| && f(ts[i]) > 0
  {
    if f(ts[|ts| - 1]) > 0 {
      i := |ts| - 1;
    } else {
      i := TotalPositive(f, ts[..|ts| - 1]);
    }
  }

  function Nodes(channel: seq<Msg>): nat {
    if channel == [] then 0
    else (if channel[0].Node? then 1 else 0) + Nodes(channel[1..])
  }

  lemma {:induction false} NodesAppend(channel: seq<Msg>, m: Msg)
    ensures Nodes(channel + [m]) == Nodes(channel) + (if m.Node? then 1 else 0)
  {
    if channel != [] {
      assert (channel + [m])[1..] == channel[1..] + [m];
      NodesAppend(channel[1..], m);
    }
  }

  lemma {:induction false} LastNodeCounts(channel: seq<Msg>)
    requires channel != [] && channel[|channel| - 1].Node?
    ensures Nodes(channel) > 0
  {
    if |channel| > 1 {
      LastNodeCounts(channel[1..]);
    }
  }
}
