/**
  The mutable side of `execute`: the collections and counters its `select!` loop updates, and
  its two state-changing arms.  Each method performs a sequence of the transition system's
  events, so everything proved about runs holds of the loop.
 */
module ExecutorLoop {
  import opened Wrappers
  import opened Workflows
  import opened Compiler
  import opened TaskLoop
  import opened Executor

  lemma {:induction false} RunAppend(cfg: EngineConfig, w: Workflow, s: State, events: seq<Event>, e: Event)
    requires IsRun(cfg, w, s, events) && Enabled(cfg, w, After(cfg, w, s, events), e)
    ensures IsRun(cfg, w, s, events + [e])
    ensures After(cfg, w, s, events + [e]) == Apply(cfg, w, After(cfg, w, s, events), e)
    decreases |events|
  {
    if events == [] {
      assert ([e])[1..] == [];
    } else {
      assert (events + [e])[1..] == events[1..] + [e];
      RunAppend(cfg, w, Apply(cfg, w, s, events[0]), events[1..], e);
    }
  }

  class MainLoop {
    const cfg: EngineConfig
    const workflow: Workflow
    var phase: Phase
    var reachableNodes: set<string>
    var executedNodes: seq<string>
    var totalSpawned: nat
    var totalFinished: nat
    var stepsCount: nat
    var tasks: seq<Task>
    var channel: seq<Msg>
    var completed: set<string>

    constructor (cfg: EngineConfig, workflow: Workflow)
      requires HasStep(workflow, workflow.entry)
      ensures this.cfg == cfg && this.workflow == workflow && Abs() == Init(workflow)
    {
      this.cfg, this.workflow := cfg, workflow;
      phase := Selecting;
      reachableNodes, executedNodes := {workflow.entry}, [workflow.entry];
      totalSpawned, totalFinished, stepsCount := 1, 0, 0;
      tasks := [Running(GetStep(workflow.steps, workflow.entry).value, 0, 0)];
      channel, completed := [], {"input"};
    }

    function Abs(): State
      reads this
    {
      State(phase, reachableNodes, executedNodes, totalSpawned, totalFinished, stepsCount, tasks, channel, completed)
    }

    method TrySpawnNode(id: string)
      modifies this`executedNodes, this`totalSpawned, this`tasks
      ensures Abs() == TrySpawn(workflow, old(Abs()), id)
    {
      var step := GetStep(workflow.steps, id);
      if step.Some? {
        var runnable := CanRun(step.value, completed);
        if id !in executedNodes && runnable {
          executedNodes := executedNodes + [step.value.id];
          totalSpawned := totalSpawned + 1;
          tasks := tasks + [Running(step.value, 0, 0)];
        }
      }
    }

    // The check after the `select!`.
    method CheckDone()
      modifies this`phase
      ensures Abs() == Settle(old(Abs()))
    {
      if totalSpawned == totalFinished && Total(ActiveWeight, tasks) == 0 {
        phase := Left;
      } else {
        phase := Selecting;
      }
    }

    // One position of the scan; at capacity it stops there.
    method ScanOne(id: string)
      requires Enabled(cfg, workflow, Abs(), Scan(id))
      modifies this
      ensures Abs() == Apply(cfg, workflow, old(Abs()), Scan(id))
    {
      var todo := phase.todo;
      if Total(ActiveWeight, tasks) >= cfg.maxConcurrentNodes {
        CheckDone();
      } else {
        TrySpawnNode(id);
        if todo - {id} == {} {
          CheckDone();
        } else {
          phase := Scanning(todo - {id});
        }
      }
    }

    /** The receive arm: one message, and for a `Node` the scan over all reachable nodes. */
    method OnMessage() returns (ghost events: seq<Event>)
      requires Enabled(cfg, workflow, Abs(), Receive)
      modifies this
      ensures IsRun(cfg, workflow, old(Abs()), events) && Abs() == After(cfg, workflow, old(Abs()), events)
      ensures events != [] && events[0] == Receive && forall i :: 1 <= i < |events| ==> events[i].Scan?
      ensures reachableNodes != {} ==> !phase.Scanning?
    {
      events := [Receive];
      var message := channel[0];
      channel := channel[1..];
      match message {
        case SpawnNext(id) =>
          reachableNodes := reachableNodes + {id};
          if Total(ActiveWeight, tasks) < cfg.maxConcurrentNodes {
            TrySpawnNode(id);
          }
          CheckDone();
        case Node(_) =>
          totalFinished := totalFinished + 1;
          phase := Scanning(reachableNodes);
          assert Abs() == After(cfg, workflow, old(Abs()), events);
          while phase.Scanning? && phase.todo != {}
            invariant IsRun(cfg, workflow, old(Abs()), events) && Abs() == After(cfg, workflow, old(Abs()), events)
            invariant events != [] && events[0] == Receive && forall i :: 1 <= i < |events| ==> events[i].Scan?
            invariant phase.Scanning? ==> phase.todo != {} || reachableNodes == {}
            decreases if phase.Scanning? then 1 else 0, if phase.Scanning? then phase.todo else {}
          {
            var id :| id in phase.todo;
            RunAppend(cfg, workflow, old(Abs()), events, Scan(id));
            ScanOne(id);
            events := events + [Scan(id)];
          }
      }
    }

    /** The join arm. */
    method OnJoin(t: nat)
      requires Enabled(cfg, workflow, Abs(), Join(t))
      modifies this
      ensures Abs() == Apply(cfg, workflow, old(Abs()), Join(t))
    {
      var task := tasks[t];
      tasks := tasks[t := Joined(task.announced)];
      if !task.ok || stepsCount + task.executed > cfg.maxSteps {
        phase := Aborted;
      } else {
        stepsCount := stepsCount + task.executed;
        CheckDone();
      }
    }
  }
}
