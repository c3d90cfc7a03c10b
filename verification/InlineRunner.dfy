/**
  The in-memory run registry, and the runner that ties it to the intent log: spawning persists
  first, replaying counts and then spawns again under the same id.
 */
module InlineRunners {
  import opened Wrappers
  import opened RunnerIntents
  import RunnerRuns

  datatype RunState =
    | Pending
    | Running
    | Done(result: string)
    | Broken(error: string)
    | Aborted
  {
    predicate IsTerminal() {
      Done? || Broken? || Aborted?
    }
  }

  datatype RunRecord = RunRecord(workflow: string, state: RunState, startedAt: Option<Micros>, finishedAt: Option<Micros>)

  // What happens to one slot: the task begins, or an outcome is reported for it.
  datatype SlotOp = Begin(at: Micros) | Report(outcome: RunState, at: Micros)

  function ApplyOp(r: RunRecord, op: SlotOp): RunRecord {
    match op
    case Begin(at) => if r.state.Pending? then r.(state := Running, startedAt := Some(at)) else r
    case Report(outcome, at) => if r.state.IsTerminal() then r else r.(state := outcome, finishedAt := Some(at))
  }

  function AfterOps(r: RunRecord, ops: seq<SlotOp>): RunRecord
    decreases |ops|
  {
    if ops == [] then r else AfterOps(ApplyOp(r, ops[0]), ops[1..])
  }

  lemma {:induction false} OutcomeStays(r: RunRecord, ops: seq<SlotOp>)
    requires r.state.IsTerminal()
    ensures AfterOps(r, ops) == r
    decreases |ops|
  {
    if ops != [] {
      OutcomeStays(r, ops[1..]);
    }
  }

  /**
    The first outcome reported for a run is the one it keeps, with its time, whatever a late
    start, a racing cancel or a finishing task report after it.
   */
  lemma {:induction false} FirstOutcomeWins(r: RunRecord, ops: seq<SlotOp>, k: nat)
    requires !r.state.IsTerminal() && k < |ops| && ops[k].Report? && ops[k].outcome.IsTerminal()
    requires forall i :: 0 <= i < k ==> ops[i].Begin?
    ensures AfterOps(r, ops).state == ops[k].outcome && AfterOps(r, ops).finishedAt == Some(ops[k].at)
    decreases |ops|
  {
    if k == 0 {
      OutcomeStays(ApplyOp(r, ops[0]), ops[1..]);
    } else {
      assert ops[0].Begin?;
      FirstOutcomeWins(ApplyOp(r, ops[0]), ops[1..], k - 1);
    }
  }

  class RunRegistry {
    var records: map<RunId, RunRecord>
    var hooks: set<RunId>

    constructor ()
      ensures records == map[] && hooks == {}
    {
      records, hooks := map[], {};
    }

    // A new slot has no hook yet; an old slot under the same id is replaced.
    method InsertPendingWithId(id: RunId, workflow: string)
      modifies this
      ensures records == old(records)[id := RunRecord(workflow, Pending, None, None)] && hooks == old(hooks) - {id}
    {
      records := records[id := RunRecord(workflow, Pending, None, None)];
      hooks := hooks - {id};
    }

    method MarkRunning(id: RunId, now: Micros)
      modifies this`records
      ensures records == if id in old(records) then old(records)[id := ApplyOp(old(records)[id], Begin(now))] else old(records)
      ensures id in old(records) ==>
                records[id] == if old(records)[id].state == Pending then RunRecord(old(records)[id].workflow, Running, Some(now), old(records)[id].finishedAt)
                               else old(records)[id]
    {
      if id in records && records[id].state.Pending? {
        records := records[id := records[id].(state := Running, startedAt := Some(now))];
      }
    }

    method MarkTerminal(id: RunId, outcome: RunState, now: Micros)
      modifies this`records
      ensures records
           == if id in old(records) then old(records)[id := ApplyOp(old(records)[id], Report(outcome, now))] else old(records)
      ensures id in old(records) ==>
                records[id] == if old(records)[id].state in {Pending, Running}
                               then RunRecord(old(records)[id].workflow, outcome, old(records)[id].startedAt, Some(now))
                               else old(records)[id]
    {
      if id in records && !records[id].state.IsTerminal() {
        records := records[id := records[id].(state := outcome, finishedAt := Some(now))];
      }
    }

    method RegisterCancelHook(id: RunId)
      modifies this`hooks
      ensures hooks == if id in records then old(hooks) + {id} else old(hooks)
    {
      if id in records {
        hooks := hooks + {id};
      }
    }

    /** The hook is taken, so it is called at most once; a finished run keeps its outcome. */
    method Cancel(id: RunId, now: Micros) returns (hadHook: bool)
      modifies this
      ensures hadHook <==> id in old(records) && id in old(hooks)
      ensures id in old(records) ==> id !in hooks
      ensures records
           == if id in old(records) then old(records)[id := ApplyOp(old(records)[id], Report(Aborted, now))] else old(records)
    {
      if id !in records {
        return false;
      }
      hadHook := id in hooks;
      hooks := hooks - {id};
      MarkTerminal(id, Aborted, now);
    }
  }

  datatype RunnerError = WorkflowNotFound(workflow: string) | Backend(reason: string)

  class InlineRunner {
    const registry: RunRegistry
    const intents: RunnerIntentStore

    constructor (registry: RunRegistry, intents: RunnerIntentStore)
      ensures this.registry == registry && this.intents == intents
    {
      this.registry, this.intents := registry, intents;
    }

    /**
      Persists the intent before the task is started.  A missing workflow leaves no trace; under
      an existing id the intent is written anew, so its replay count is 0 again.
     */
    method SpawnWithId(workflows: set<string>, existing: Option<RunId>, newId: RunId, spec: Spec, now: Micros)
      returns (r: Result<RunId, RunnerError>)
      modifies registry, intents
      ensures r.Ok? <==> spec.workflow in workflows
      ensures r.Err? ==>
                && intents.State() == old(intents.State())
                && registry.records == old(registry.records) && registry.hooks == old(registry.hooks)
      ensures r.Ok? ==>
                var id := if existing.Some? then existing.value else newId;
                && r.value == id
                && intents.State() == Inserted(old(intents.State()), NewIntent(id, spec, now))
                && intents.intents == old(intents.intents)[id := Intent(id, spec, now, None, 0)]
                && intents.byNamespace == old(intents.byNamespace) + {(spec.namespace, id)}
                && registry.records == old(registry.records)[id := RunRecord(spec.workflow, Pending, None, None)]
                && registry.hooks == old(registry.hooks) + {id}
    {
      if spec.workflow !in workflows {
        return Err(WorkflowNotFound(spec.workflow));
      }
      var id := if existing.Some? then existing.value else newId;
      registry.InsertPendingWithId(id, spec.workflow);
      intents.Insert(NewIntent(id, spec, now));
      registry.RegisterCancelHook(id);
      return Ok(id);
    }

    /**
      Each way out of a replay is one or two of the steps runs are made of.  Only a run spawned
      again gets a slot and a hook; giving up is a no-op on an intent that is gone.
     */
    method Replay(workflows: set<string>, intent: Intent, now: Micros) returns (r: Result<RunId, RunnerError>)
      requires IndexExact(intents.State())
      requires intent.runId in intents.intents ==> intents.intents[intent.runId].spec == intent.spec
      modifies registry, intents
      ensures IndexExact(intents.State())
      ensures r.Ok? <==> intent.replayCount + 1 <= RunnerRuns.REPLAY_LIMIT && intent.spec.workflow in workflows
      ensures var before, id := old(intents.State()), intent.runId;
        var counted := Inserted(before, intent.(replayCount := intent.replayCount + 1));
        if intent.replayCount + 1 > RunnerRuns.REPLAY_LIMIT then
          intents.State()
          == if id in before.intents then
               before.(intents := before.intents[id := before.intents[id].(terminal := Some(RunnerRuns.LIMIT_STATUS))])
             else before
        else if intent.spec.workflow !in workflows then intents.State() == counted
        else r == Ok(id) && intents.State() == Inserted(counted, NewIntent(id, intent.spec, now))
      ensures r.Err? ==> registry.records == old(registry.records) && registry.hooks == old(registry.hooks)
      ensures r.Ok? ==>
                && registry.records == old(registry.records)[intent.runId := RunRecord(intent.spec.workflow, Pending, None, None)]
                && registry.hooks == old(registry.hooks) + {intent.runId}
    {
      var updated := intent.(replayCount := intent.replayCount + 1);
      if updated.replayCount > RunnerRuns.REPLAY_LIMIT {
        intents.MarkTerminal(intent.runId, RunnerRuns.LIMIT_STATUS);
        return Err(Backend("replay loop exceeded limit"));
      }
      InsertExactIff(intents.State(), updated);
      intents.Insert(updated);
      InsertExactIff(intents.State(), NewIntent(intent.runId, intent.spec, now));
      r := SpawnWithId(workflows, Some(intent.runId), intent.runId, intent.spec, now);
    }
  }
}
