/**
  What every interleaving of the executor keeps, and what it means for the loop to leave:
  no step started two tasks, every task announced itself exactly once, nothing is in flight,
  and, with room for every step, nothing that could still run was left behind.  All of it
  holds of every workflow with a known entry, validated or not.
 */
module ExecutorSafety {
  import opened Wrappers
  import opened Graphs
  import opened Validator
  import opened Workflows
  import opened Compiler
  import opened Routing
  import opened TaskLoop
  import opened Executor

  // A finished task sends its targets first and its own `Node` last, once.
  ghost predicate PendingOk(pending: seq<Msg>, announced: nat) {
    if pending == [] then announced == 1
    else
      && announced == 0 && pending[|pending| - 1].Node?
      && forall i :: 0 <= i < |pending| - 1 ==> pending[i].SpawnNext?
  }

  ghost predicate TaskOk(w: Workflow, task: Task) {
    match task
    case Running(step, _, _) => GetStep(w.steps, step.id) == Some(step)
    case Sending(pending, _, _, announced) => PendingOk(pending, announced)
    case Joined(announced) => announced == 1
  }

  // Started steps are distinct steps of the workflow, one per spawned task.
  ghost predicate StartsOk(w: Workflow, s: State) {
    && s.spawned == |s.tasks| == |s.started|
    && Distinct(s.started)
    && (forall id :: id in s.started ==> HasStep(w, id))
  }

  // Announced targets need not be steps at all; the scan looks at reachable ones.
  ghost predicate ScanOk(s: State) {
    s.phase.Scanning? ==> s.phase.todo <= s.reachable
  }

  ghost predicate TasksOk(w: Workflow, s: State) {
    forall i :: 0 <= i < |s.tasks| ==> TaskOk(w, s.tasks[i])
  }

  // Every spawned task is counted once: received, in the channel, or still to be sent; and
  // the channel never ends in a request whose sender has nothing more to send.
  ghost predicate Books(s: State) {
    && s.spawned == s.finished + Nodes(s.channel) + Unsent(s)
    && (Unsent(s) > 0 || s.channel == [] || s.channel[|s.channel| - 1].Node?)
  }

  predicate CannotStart(w: Workflow, s: State, id: string) {
    id in s.started || GetStep(w.steps, id).None? || !MayRun(GetStep(w.steps, id).value, s.completed)
  }

  // When all announcements are in, what the scan has passed over cannot run.
  ghost predicate Quiet(w: Workflow, s: State) {
    s.spawned == s.finished ==>
      forall id :: id in s.reachable && !(s.phase.Scanning? && id in s.phase.todo) ==> CannotStart(w, s, id)
  }

  predicate JoinMet(w: Workflow, id: string, completed: set<string>) {
    GetStep(w.steps, id).Some? && MayRun(GetStep(w.steps, id).value, completed)
  }

  // Every started step but the entry had its join condition met.
  ghost predicate DepsMet(w: Workflow, s: State) {
    forall i :: 1 <= i < |s.started| ==> JoinMet(w, s.started[i], s.completed)
  }

  ghost predicate Inv(cfg: EngineConfig, w: Workflow, s: State) {
    s.phase.Aborted? || (
      && StartsOk(w, s) && ScanOk(s) && TasksOk(w, s)
      && Books(s) && DepsMet(w, s)
      && (cfg.maxConcurrentNodes >= |w.steps| ==> Quiet(w, s))
      && (s.phase.Left? ==> s.spawned == s.finished && Active(s) == 0))
  }

  // ---- Initially ----

  lemma InitInv(cfg: EngineConfig, w: Workflow)
    requires HasStep(w, w.entry)
    ensures Inv(cfg, w, Init(w))
  {
    var s := Init(w);
    assert s.tasks[..|s.tasks| - 1] == [];
    assert Unsent(s) == Total(UnsentWeight, []) + 1;
  }

  // ---- One turn of a task ----

  lemma TurnKeepsTask(w: Workflow, task: Task, outcome: Outcome)
    requires task.Running? && TaskOk(w, task)
    ensures TaskOk(w, AfterTurn(w, task, outcome))
    ensures UnsentWeight(AfterTurn(w, task, outcome)) == 1 && ActiveWeight(AfterTurn(w, task, outcome)) == 1
  {
    if Advance(w, task.step, task.iteration, outcome).Continue? {
      MoveIsInline(w, task.step, task.iteration, outcome);
    }
  }

  lemma DepsStay(w: Workflow, s: State, s': State)
    requires StartsOk(w, s) && DepsMet(w, s)
    requires s'.started == s.started && s'.spawned == s.spawned && |s'.tasks| == |s.tasks| && s.completed <= s'.completed
    ensures StartsOk(w, s') && DepsMet(w, s')
  {
    forall i | 1 <= i < |s'.started| ensures JoinMet(w, s'.started[i], s'.completed) {
      MayRunStays(GetStep(w.steps, s.started[i]).value, s.completed, s'.completed);
    }
  }

  // One task changes and nothing is received: what is left to show is that task and the books.
  lemma OneTaskKeeps(cfg: EngineConfig, w: Workflow, s: State, s': State, t: nat)
    requires Inv(cfg, w, s) && (s.phase.Selecting? || s.phase.Scanning?) && t < |s.tasks| && UnsentWeight(s.tasks[t]) == 1
    requires s' == s.(tasks := s'.tasks, channel := s'.channel, completed := s'.completed)
    requires |s'.tasks| == |s.tasks| && s.completed <= s'.completed && s'.tasks == s.tasks[t := s'.tasks[t]]
    requires TaskOk(w, s'.tasks[t]) && Books(s') && ScanOk(s')
    ensures Inv(cfg, w, s')
  {
    TotalAtLeast(UnsentWeight, s.tasks, t);
    DepsStay(w, s, s');
  }

  lemma ExecKeeps(cfg: EngineConfig, w: Workflow, s: State, t: nat, outcome: Outcome)
    requires Inv(cfg, w, s) && Enabled(cfg, w, s, Exec(t, outcome))
    ensures Inv(cfg, w, ApplyExec(w, s, t, outcome))
  {
    var s' := ApplyExec(w, s, t, outcome);
    TurnKeepsTask(w, s.tasks[t], outcome);
    TotalUpdate(UnsentWeight, s.tasks, t, AfterTurn(w, s.tasks[t], outcome));
    TotalAtLeast(UnsentWeight, s.tasks, t);
    OneTaskKeeps(cfg, w, s, s', t);
  }

  lemma SendKeeps(cfg: EngineConfig, w: Workflow, s: State, t: nat)
    requires Inv(cfg, w, s) && Enabled(cfg, w, s, Send(t))
    ensures Inv(cfg, w, ApplySend(s, t))
  {
    var s' := ApplySend(s, t);
    assert TaskOk(w, s.tasks[t]);
    SendKeepsBooks(w, s, t);
    OneTaskKeeps(cfg, w, s, s', t);
  }

  lemma SendKeepsBooks(w: Workflow, s: State, t: nat)
    requires t < |s.tasks| && s.tasks[t].Sending? && s.tasks[t].pending != []
    requires TaskOk(w, s.tasks[t]) && Books(s)
    ensures Books(ApplySend(s, t))
  {
    var s', task := ApplySend(s, t), s.tasks[t];
    TotalUpdate(UnsentWeight, s.tasks, t, s'.tasks[t]);
    TotalAtLeast(UnsentWeight, s.tasks, t);
    TotalAtLeast(UnsentWeight, s'.tasks, t);
    NodesAppend(s.channel, task.pending[0]);
    if task.pending[0].Node? {
      LastNodeCounts(s'.channel);
    }
  }

  lemma JoinKeeps(cfg: EngineConfig, w: Workflow, s: State, t: nat)
    requires Inv(cfg, w, s) && Enabled(cfg, w, s, Join(t))
    ensures Inv(cfg, w, ApplyJoin(cfg, s, t))
  {
    var s' := ApplyJoin(cfg, s, t);
    if !s'.phase.Aborted? {
      assert TaskOk(w, s.tasks[t]);
      TotalUpdate(UnsentWeight, s.tasks, t, Joined(s.tasks[t].announced));
      DepsStay(w, s, s');
    }
  }

  // ---- Starting a task ----

  lemma TrySpawnKeeps(w: Workflow, s: State, id: string)
    requires StartsOk(w, s) && ScanOk(s) && TasksOk(w, s) && DepsMet(w, s)
    requires s.spawned == s.finished + Nodes(s.channel) + Unsent(s)
    ensures var s' := TrySpawn(w, s, id);
      && StartsOk(w, s') && ScanOk(s') && TasksOk(w, s') && DepsMet(w, s')
      && s'.spawned == s'.finished + Nodes(s'.channel) + Unsent(s')
      && (s' == s || Unsent(s') > Unsent(s))
      && (s' == s ==> CannotStart(w, s, id))
  {
    var step := GetStep(w.steps, id);
    if step.Some? && id !in s.started && MayRun(step.value, s.completed) {
      var task := Running(step.value, 0, 0);
      TotalAppend(UnsentWeight, s.tasks, task);
    }
  }

  // With room for every step, a step not yet started always finds room.
  lemma {:induction false} ActiveWithinSpawned(ts: seq<Task>)
    ensures Total(ActiveWeight, ts) <= |ts|
  {
    if ts != [] {
      ActiveWithinSpawned(ts[..|ts| - 1]);
    }
  }

  function IdSet(steps: seq<Step>): (ids: set<string>)
    ensures forall id :: id in ids <==> GetStep(steps, id).Some?
    ensures |ids| <= |steps|
  {
    if steps == [] then {} else {steps[0].id} + IdSet(steps[1..])
  }

  lemma {:induction false} DistinctSize(ids: seq<string>)
    requires Distinct(ids)
    ensures |Elems(ids)| == |ids|
  {
    if ids != [] {
      var init := ids[..|ids| - 1];
      DistinctSize(init);
      assert Elems(ids) == Elems(init) + {ids[|ids| - 1]};
    }
  }

  lemma StartedWithinSteps(w: Workflow, s: State)
    requires StartsOk(w, s)
    ensures |s.started| <= |w.steps|
    ensures forall id :: HasStep(w, id) && id !in s.started ==> |s.started| < |w.steps|
  {
    DistinctSize(s.started);
    var ids := IdSet(w.steps);
    assert Elems(s.started) <= ids;
    SubsetSize(Elems(s.started), ids);
    forall id | HasStep(w, id) && id !in s.started ensures |s.started| < |w.steps| {
      assert id in ids - Elems(s.started);
      SmallerSet(Elems(s.started), ids);
    }
  }

  lemma SubsetSize<T>(a: set<T>, b: set<T>)
    requires a <= b
    ensures |a| <= |b|
  {
    if a != b {
      SmallerSet(a, b);
    }
  }

  lemma RoomForUnstarted(w: Workflow, s: State, id: string)
    requires StartsOk(w, s) && HasStep(w, id) && id !in s.started
    ensures Active(s) < |w.steps|
  {
    StartedWithinSteps(w, s);
    ActiveWithinSpawned(s.tasks);
  }

  // ---- The two message arms and the scan ----

  lemma SettleKeeps(cfg: EngineConfig, w: Workflow, s: State)
    requires StartsOk(w, s) && ScanOk(s) && TasksOk(w, s) && Books(s) && DepsMet(w, s)
    requires cfg.maxConcurrentNodes >= |w.steps| && s.spawned == s.finished ==>
               forall id :: id in s.reachable ==> CannotStart(w, s, id)
    ensures Inv(cfg, w, Settle(s))
  {
    var s' := Settle(s);
    assert forall id :: CannotStart(w, s, id) == CannotStart(w, s', id);
  }

  lemma ScanningInv(cfg: EngineConfig, w: Workflow, s: State, todo: set<string>)
    requires StartsOk(w, s) && ScanOk(s) && TasksOk(w, s) && Books(s) && DepsMet(w, s)
    requires todo <= s.reachable
    requires cfg.maxConcurrentNodes >= |w.steps| && s.spawned == s.finished ==>
               forall id :: id in s.reachable && id !in todo ==> CannotStart(w, s, id)
    ensures Inv(cfg, w, s.(phase := Scanning(todo)))
  {
    var s' := s.(phase := Scanning(todo));
    assert forall id :: CannotStart(w, s, id) == CannotStart(w, s', id);
  }

  lemma ReceiveNodeKeeps(cfg: EngineConfig, w: Workflow, s: State)
    requires Inv(cfg, w, s) && Enabled(cfg, w, s, Receive) && s.channel[0].Node?
    ensures Inv(cfg, w, ApplyReceive(cfg, w, s))
  {
    var s' := ApplyReceive(cfg, w, s);
    assert s'.channel == s.channel[1..];
    DepsStay(w, s, s');
  }

  lemma ReceiveSpawnNextKeeps(cfg: EngineConfig, w: Workflow, s: State)
    requires Inv(cfg, w, s) && Enabled(cfg, w, s, Receive) && s.channel[0].SpawnNext?
    ensures Inv(cfg, w, ApplyReceive(cfg, w, s))
  {
    var id := s.channel[0].id;
    var seen := s.(channel := s.channel[1..], reachable := s.reachable + {id});
    DepsStay(w, s, seen);
    // A request is never the last thing on its way: some `Node` is still to come.
    if Unsent(s) == 0 {
      LastNodeCounts(s.channel);
    }
    assert s.spawned > s.finished;
    TrySpawnKeeps(w, seen, id);
    var next := if Active(s) < cfg.maxConcurrentNodes then TrySpawn(w, seen, id) else seen;
    assert ApplyReceive(cfg, w, s) == Settle(next);
    SettleKeeps(cfg, w, next);
  }

  lemma ScanKeeps(cfg: EngineConfig, w: Workflow, s: State, id: string)
    requires Inv(cfg, w, s) && Enabled(cfg, w, s, Scan(id))
    ensures Inv(cfg, w, ApplyScan(cfg, w, s, id))
  {
    if Active(s) >= cfg.maxConcurrentNodes {
      if cfg.maxConcurrentNodes >= |w.steps| {
        forall r | r in s.reachable ensures CannotStart(w, s, r) {
          if HasStep(w, r) && r !in s.started {
            RoomForUnstarted(w, s, r);
          }
        }
      }
      SettleKeeps(cfg, w, s);
    } else {
      ScanOneKeeps(cfg, w, s, id);
    }
  }

  lemma ScanOneKeeps(cfg: EngineConfig, w: Workflow, s: State, id: string)
    requires Inv(cfg, w, s) && Enabled(cfg, w, s, Scan(id))
    requires Active(s) < cfg.maxConcurrentNodes
    ensures Inv(cfg, w, ApplyScan(cfg, w, s, id))
  {
    var next := TrySpawn(w, s, id);
    var todo := s.phase.todo - {id};
    TrySpawnKeeps(w, s, id);
    // Either a task was started, and its `Node` is still to come, or nothing changed.
    if cfg.maxConcurrentNodes >= |w.steps| && next.spawned == next.finished {
      forall r | r in s.reachable && r !in todo ensures CannotStart(w, next, r) {
        assert r == id || r !in s.phase.todo;
      }
    }
    if todo == {} {
      SettleKeeps(cfg, w, next);
    } else {
      ScanningInv(cfg, w, next, todo);
    }
  }

  /** Every event keeps the invariant. */
  lemma StepKeeps(cfg: EngineConfig, w: Workflow, s: State, e: Event)
    requires Inv(cfg, w, s) && Enabled(cfg, w, s, e)
    ensures Inv(cfg, w, Apply(cfg, w, s, e))
  {
    match e
    case Exec(t, outcome) => ExecKeeps(cfg, w, s, t, outcome);
    case Send(t) => SendKeeps(cfg, w, s, t);
    case Join(t) => JoinKeeps(cfg, w, s, t);
    case Receive =>
      if s.channel[0].Node? {
        ReceiveNodeKeeps(cfg, w, s);
      } else {
        ReceiveSpawnNextKeeps(cfg, w, s);
      }
    case Scan(id) => ScanKeeps(cfg, w, s, id);
    case Cancel =>
  }

  lemma {:induction false} RunKeeps(cfg: EngineConfig, w: Workflow, s: State, events: seq<Event>)
    requires Inv(cfg, w, s) && IsRun(cfg, w, s, events)
    ensures Inv(cfg, w, After(cfg, w, s, events))
    decreases |events|
  {
    if events != [] {
      StepKeeps(cfg, w, s, events[0]);
      RunKeeps(cfg, w, Apply(cfg, w, s, events[0]), events[1..]);
    }
  }

  // ---- Leaving ----

  // Nothing is in flight and every spawned task has announced itself exactly once.
  ghost predicate Drained(s: State) {
    && s.channel == []
    && (forall i :: 0 <= i < |s.tasks| ==> s.tasks[i] == Joined(1))
    && s.finished == s.spawned == |s.tasks|
  }

  lemma LeftIsDrained(cfg: EngineConfig, w: Workflow, s: State)
    requires Inv(cfg, w, s) && s.phase.Left?
    ensures Drained(s)
  {
    forall i | 0 <= i < |s.tasks| ensures s.tasks[i] == Joined(1) {
      TotalAtLeast(ActiveWeight, s.tasks, i);
      assert TaskOk(w, s.tasks[i]);
    }
    if Unsent(s) > 0 {
      var i := TotalPositive(UnsentWeight, s.tasks);
    }
    if s.channel != [] {
      LastNodeCounts(s.channel);
    }
  }

  /**
    Termination detection: however tasks, sends, receipts and joins interleave, if the loop
    leaves normally then every task announced itself exactly once, the channel is empty, no
    step started two tasks, every started step but the entry met its join condition, and with
    `max_concurrent_nodes` at least the number of steps nothing reachable can still start.
   */
  lemma LeavingIsQuiescent(cfg: EngineConfig, w: Workflow, events: seq<Event>)
    requires HasStep(w, w.entry)
    requires IsRun(cfg, w, Init(w), events) && After(cfg, w, Init(w), events).phase.Left?
    ensures var s := After(cfg, w, Init(w), events);
      && Drained(s)
      && Distinct(s.started) && |s.started| == |s.tasks|
      && (forall i :: 1 <= i < |s.started| ==> JoinMet(w, s.started[i], s.completed))
      && (cfg.maxConcurrentNodes >= |w.steps| ==> forall id :: id in s.reachable ==> CannotStart(w, s, id))
  {
    InitInv(cfg, w);
    RunKeeps(cfg, w, Init(w), events);
    var s := After(cfg, w, Init(w), events);
    LeftIsDrained(cfg, w, s);
  }
}
