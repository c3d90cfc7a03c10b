/**
  The inline runner over its intent log, under interleaving and crashes: spawning, running,
  marking outcomes, cancelling, restarting, replaying and collecting, one transaction a step.

  Spawning may begin before the boot loop has listed what to replay, as timers fire by then; a
  run can so have two tasks, the one spawned and the one replayed.
 */
module RunnerRuns {
  import opened Wrappers
  import opened RunnerIntents

  const REPLAY_LIMIT: nat := 10

  const LIMIT_STATUS: TerminalStatus := Failed("replay loop exceeded limit (>10 restarts)")

  // Marking an outcome is a read, then a write that is handed to the blocking pool and commits.
  datatype Phase =
    | Persisted
    | Running
    | Returned(status: TerminalStatus)
    | Marking(read: Intent, status: TerminalStatus)
    | Writing(write: Intent)

  datatype Task = Task(id: RunId, phase: Phase)

  // What the boot loop is doing with the first intent it still has to replay.
  datatype Replay =
    | Idle
    | Counted
    | Limiting(read: Intent)

  datatype State = State(
    store: Store,
    // In memory, lost in a crash.  `detached` holds the writes of aborted tasks, which the
    // blocking pool still commits.
    listed: bool, tasks: map<nat, Task>, next: nat, detached: map<nat, Intent>,
    replays: seq<Intent>, replay: Replay, victims: set<(string, RunId)>,
    // History.  `stalls` counts the replays of a run since it was last put to work.
    persisted: map<RunId, Spec>, returned: set<RunId>, limited: set<RunId>, starts: map<RunId, nat>, stalls: map<RunId, nat>)

  datatype Event =
    | Boot(list: seq<Intent>)
    | Spawn(id: RunId, spec: Spec, now: Micros)
    | Start(task: nat)
    | Return(task: nat, status: TerminalStatus)
    | ReadIntent(task: nat)
    | HandOver(task: nat)
    | Commit(task: nat)
    | Abort(task: nat)
    | CommitDetached(task: nat)
    | CountReplay
    | SpawnReplay(now: Micros)
    | MissReplay
    | ReadLimited
    | WriteLimited
    | CollectVictims(cutoff: Micros)
    | DeleteVictims
    | Crash

  const FIRST := State(Store(map[], {}), false, map[], 0, map[], [], Idle, {}, map[], {}, {}, map[], map[])

  ghost predicate IsReplayList(s: Store, list: seq<Intent>) {
    && (forall i :: 0 <= i < |list| ==>
          list[i].runId in s.intents && s.intents[list[i].runId] == list[i] && list[i].terminal.None?)
    && (forall i, j :: 0 <= i < j < |list| ==> list[i].runId != list[j].runId)
    && (forall id :: id in s.intents && s.intents[id].terminal.None? ==> exists i :: 0 <= i < |list| && list[i].runId == id)
  }


  // Run ids are drawn fresh.  A process lists what to replay once.
  ghost predicate Enabled(s: State, e: Event) {
    match e
    case Boot(list) => !s.listed && IsReplayList(s.store, list)
    case Spawn(id, _, _) => id !in s.persisted
    case Start(t) => t in s.tasks && s.tasks[t].phase.Persisted?
    case Return(t, _) => t in s.tasks && s.tasks[t].phase.Running?
    case ReadIntent(t) => t in s.tasks && s.tasks[t].phase.Returned?
    case HandOver(t) => t in s.tasks && s.tasks[t].phase.Marking?
    case Commit(t) => t in s.tasks && s.tasks[t].phase.Writing?
    case Abort(t) => t in s.tasks
    case CommitDetached(t) => t in s.detached
    case CountReplay => s.replays != [] && s.replay.Idle? && s.replays[0].replayCount + 1 <= REPLAY_LIMIT
    case SpawnReplay(_) => s.replays != [] && s.replay.Counted?
    case MissReplay => s.replays != [] && s.replay.Counted?
    case ReadLimited => s.replays != [] && s.replay.Idle? && s.replays[0].replayCount + 1 > REPLAY_LIMIT
    case WriteLimited => s.replays != [] && s.replay.Limiting?
    case CollectVictims(_) => s.victims == {}
    case DeleteVictims => s.victims != {}
    case Crash => true
  }

  function OneMore(counts: map<RunId, nat>, id: RunId): map<RunId, nat> {
    counts[id := 1 + if id in counts then counts[id] else 0]
  }

  // A task moves on to its next phase.
  function Moved(s: State, t: nat, phase: Phase): State
    requires t in s.tasks
  {
    s.(tasks := s.tasks[t := s.tasks[t].(phase := phase)])
  }

  function Spawned(s: State, id: RunId, spec: Spec, now: Micros): State {
    s.(store := Inserted(s.store, NewIntent(id, spec, now)), tasks := s.tasks[s.next := Task(id, Persisted)], next := s.next + 1,
       stalls := s.stalls[id := 0])
  }

  predicate OfTask(e: Event) {
    e.Start? || e.Return? || e.ReadIntent? || e.HandOver? || e.Commit? || e.Abort? || e.CommitDetached?
  }

  predicate OfReplay(e: Event) {
    e.CountReplay? || e.SpawnReplay? || e.MissReplay? || e.ReadLimited? || e.WriteLimited?
  }

  ghost function TaskStep(s: State, e: Event): (after: State)
    requires OfTask(e) && Enabled(s, e)
    ensures forall t :: t in after.tasks ==> t in s.tasks && after.tasks[t].id == s.tasks[t].id
    ensures after.victims == s.victims && after.replays == s.replays && after.replay == s.replay && after.stalls == s.stalls
  {
    match e
    case Start(t) => Moved(s, t, Running).(starts := OneMore(s.starts, s.tasks[t].id))
    case Return(t, status) => Moved(s, t, Returned(status)).(returned := s.returned + {s.tasks[t].id})
    case ReadIntent(t) =>
      var id := s.tasks[t].id;
      if id in s.store.intents then Moved(s, t, Marking(s.store.intents[id], s.tasks[t].phase.status))
      else s.(tasks := s.tasks - {t})
    case HandOver(t) => Moved(s, t, Writing(s.tasks[t].phase.read.(terminal := Some(s.tasks[t].phase.status))))
    case Commit(t) => s.(store := Inserted(s.store, s.tasks[t].phase.write), tasks := s.tasks - {t})
    case Abort(t) =>
      s.(tasks := s.tasks - {t},
         detached := if s.tasks[t].phase.Writing? then s.detached[t := s.tasks[t].phase.write] else s.detached)
    case CommitDetached(t) => s.(store := Inserted(s.store, s.detached[t]), detached := s.detached - {t})
  }

  ghost function ReplayStep(s: State, e: Event): (after: State)
    requires OfReplay(e) && Enabled(s, e)
    ensures after.victims == s.victims && after.detached == s.detached && after.listed == s.listed
  {
    var head := s.replays[0];
    match e
    case CountReplay =>
      s.(store := Inserted(s.store, head.(replayCount := head.replayCount + 1)), replay := Counted,
         stalls := OneMore(s.stalls, head.runId))
    case SpawnReplay(now) => Spawned(s, head.runId, head.spec, now).(replays := s.replays[1..], replay := Idle)
    case MissReplay => s.(replays := s.replays[1..], replay := Idle)
    case ReadLimited =>
      if head.runId in s.store.intents then s.(replay := Limiting(s.store.intents[head.runId])) else s.(replays := s.replays[1..])
    case WriteLimited =>
      s.(store := Inserted(s.store, s.replay.read.(terminal := Some(LIMIT_STATUS))),
         replays := s.replays[1..], replay := Idle, limited := s.limited + {head.runId})
  }

  ghost function Apply(s: State, e: Event): State
    requires Enabled(s, e)
  {
    if OfTask(e) then TaskStep(s, e)
    else if OfReplay(e) then ReplayStep(s, e)
    else
      match e
      case Boot(list) => s.(listed := true, replays := list, replay := Idle)
      case Spawn(id, spec, now) => Spawned(s, id, spec, now).(persisted := s.persisted[id := spec])
      case CollectVictims(cutoff) => s.(victims := Victims(s.store, cutoff))
      case DeleteVictims => s.(store := Deleted(s.store, s.victims), victims := {})
      case Crash => s.(listed := false, tasks := map[], detached := map[], replays := [], replay := Idle, victims := {})
  }

  ghost predicate IsRun(s: State, run: seq<Event>)
    decreases |run|
  {
    run == [] || (Enabled(s, run[0]) && IsRun(Apply(s, run[0]), run[1..]))
  }

  ghost function After(s: State, run: seq<Event>): State
    requires IsRun(s, run)
    decreases |run|
  {
    if run == [] then s else After(Apply(s, run[0]), run[1..])
  }

  // ---- What every step keeps ----

  // An intent in memory is of a persisted run and asks for what that run was persisted with.
  predicate Faithful(s: State, i: Intent) {
    i.runId in s.persisted && i.spec == s.persisted[i.runId]
  }

  predicate Accounted(s: State, id: RunId) {
    id in s.returned || id in s.limited
  }

  predicate Open(s: State, id: RunId) {
    id in s.store.intents && s.store.intents[id].terminal.None?
  }

  // A stored intent is the one persisted, and says terminal only if its run is accounted for.
  ghost predicate StoredOk(s: State) {
    forall id :: id in s.store.intents ==>
      Faithful(s, s.store.intents[id]) && (s.store.intents[id].terminal.Some? ==> Accounted(s, id))
  }

  /** At least once: a persisted run can still be replayed, or ran, or was given up on. */
  ghost predicate AtLeastOnce(s: State) {
    forall id :: id in s.persisted ==> Open(s, id) || Accounted(s, id)
  }

  // What a collection took as terminal stays accounted for, and in the index.
  ghost predicate VictimsOk(s: State) {
    forall v :: v in s.victims ==> v in s.store.byNamespace && Accounted(s, v.1)
  }

  ghost predicate LogOk(s: State) {
    IndexExact(s.store) && StoredOk(s) && AtLeastOnce(s) && VictimsOk(s)
  }

  ghost predicate TaskOk(s: State, task: Task) {
    && task.id in s.persisted
    && match task.phase
       case Persisted => true
       case Running => true
       case Returned(_) => task.id in s.returned
       case Marking(read, _) => task.id in s.returned && read.runId == task.id && Faithful(s, read)
       case Writing(write) => write.runId == task.id && WriteOk(s, write)
  }

  // A write on its way gives a returned run its outcome.
  ghost predicate WriteOk(s: State, write: Intent) {
    write.runId in s.returned && Faithful(s, write) && write.terminal.Some?
  }

  ghost predicate TasksOk(s: State) {
    && (forall t :: t in s.tasks ==> TaskOk(s, s.tasks[t]))
    && (forall t :: t in s.detached ==> WriteOk(s, s.detached[t]))
  }

  ghost predicate ReplaysOk(s: State) {
    && (forall i :: 0 <= i < |s.replays| ==> Faithful(s, s.replays[i]) && s.replays[i].terminal.None?)
    && (forall i, j :: 0 <= i < j < |s.replays| ==> s.replays[i].runId != s.replays[j].runId)
    && (s.replay.Counted? ==> s.replays != [] && s.replays[0].replayCount < REPLAY_LIMIT)
    && (s.replay.Limiting? ==>
          s.replays != [] && s.replays[0].replayCount >= REPLAY_LIMIT
          && s.replay.read.runId == s.replays[0].runId && Faithful(s, s.replay.read))
  }

  ghost predicate Inv(s: State) {
    LogOk(s) && TasksOk(s) && ReplaysOk(s)
  }

  // Writing one faithful intent keeps the log in order if, closed, its run is accounted for.
  lemma WriteKeepsLog(s: State, i: Intent, after: State)
    requires LogOk(s) && after.store == Inserted(s.store, i) && Faithful(after, i)
    requires i.runId in s.persisted ==> after.persisted == s.persisted
    requires i.runId !in s.persisted ==> after.persisted == s.persisted[i.runId := i.spec]
    requires s.returned <= after.returned && s.limited <= after.limited && after.victims == s.victims
    requires i.terminal.Some? ==> Accounted(after, i.runId)
    ensures LogOk(after)
  {
    assert i.runId in s.store.intents ==> Faithful(s, s.store.intents[i.runId]);
    InsertExactIff(s.store, i);
    forall id | id in after.store.intents
      ensures Faithful(after, after.store.intents[id]) && (after.store.intents[id].terminal.Some? ==> Accounted(after, id))
    {
      assert id != i.runId ==> Faithful(s, s.store.intents[id]);
    }
    forall id | id in after.persisted ensures Open(after, id) || Accounted(after, id) {
      assert id != i.runId ==> Open(s, id) || Accounted(s, id);
    }
  }

  // What the process holds in memory stays faithful while the history only grows.
  ghost predicate HistoryGrows(s: State, after: State) {
    && (forall id :: id in s.persisted ==> id in after.persisted && after.persisted[id] == s.persisted[id])
    && s.returned <= after.returned && s.limited <= after.limited
  }

  lemma TaskStays(s: State, after: State, task: Task)
    requires HistoryGrows(s, after) && TaskOk(s, task)
    ensures TaskOk(after, task)
  {
  }

  lemma TasksStay(s: State, after: State)
    requires TasksOk(s) && HistoryGrows(s, after)
    requires forall t :: t in after.tasks ==> (t in s.tasks && after.tasks[t] == s.tasks[t]) || TaskOk(after, after.tasks[t])
    requires forall t :: t in after.detached ==>
               (t in s.detached && after.detached[t] == s.detached[t]) || WriteOk(after, after.detached[t])
    ensures TasksOk(after)
  {
    forall t | t in after.tasks ensures TaskOk(after, after.tasks[t]) {
      if t in s.tasks && after.tasks[t] == s.tasks[t] {
        TaskStays(s, after, s.tasks[t]);
      }
    }
  }

  lemma ReplaysStay(s: State, after: State)
    requires ReplaysOk(s) && HistoryGrows(s, after) && after.replays == s.replays && after.replay == s.replay
    ensures ReplaysOk(after)
  {
    assert forall i :: 0 <= i < |s.replays| ==> Faithful(s, s.replays[i]);
  }

  // The head of the replay list is done with.
  lemma TailStays(s: State, after: State)
    requires ReplaysOk(s) && HistoryGrows(s, after) && s.replays != [] && after.replays == s.replays[1..] && after.replay.Idle?
    ensures ReplaysOk(after)
  {
    forall i | 0 <= i < |after.replays| ensures Faithful(after, after.replays[i]) && after.replays[i].terminal.None? {
      assert after.replays[i] == s.replays[i + 1] && Faithful(s, s.replays[i + 1]);
    }
  }

  // The log stays in order while nothing is written.
  lemma LogStays(s: State, after: State)
    requires LogOk(s) && after.store == s.store && after.persisted == s.persisted && HistoryGrows(s, after)
    requires after.victims == s.victims || after.victims == {}
    ensures LogOk(after)
  {
    hide IndexExact;
    assert forall id :: id in s.store.intents ==> Faithful(s, s.store.intents[id]);
    assert forall id :: id in s.persisted ==> Open(s, id) || Accounted(s, id);
  }

  lemma StoredIsFaithful(s: State, id: RunId)
    requires LogOk(s) && id in s.store.intents
    ensures s.store.intents[id].runId == id && Faithful(s, s.store.intents[id])
  {
  }

  lemma TasksSame(s: State, after: State)
    requires TasksOk(s) && HistoryGrows(s, after) && after.tasks == s.tasks && after.detached == s.detached
    ensures TasksOk(after)
  {
    TasksStay(s, after);
  }

  lemma TasksPlus(s: State, after: State, t: nat, task: Task)
    requires TasksOk(s) && HistoryGrows(s, after) && after.tasks == s.tasks[t := task] && after.detached == s.detached
    requires TaskOk(after, task)
    ensures TasksOk(after)
  {
    TasksStay(s, after);
  }

  // A task moves on, and nothing is written.
  lemma MovedKeeps(s: State, after: State, t: nat, task: Task)
    requires Inv(s) && HistoryGrows(s, after) && after.tasks == s.tasks[t := task] && TaskOk(after, task)
    requires after.store == s.store && after.persisted == s.persisted && after.victims == s.victims
    requires after.detached == s.detached && after.replays == s.replays && after.replay == s.replay
    ensures Inv(after)
  {
    hide LogOk, TasksOk, ReplaysOk, TaskOk;
    LogStays(s, after);
    TasksPlus(s, after, t, task);
    ReplaysStay(s, after);
  }

  // A task ends without writing anything: nothing is left of it, or its write alone.
  lemma GoneKeeps(s: State, after: State, t: nat)
    requires Inv(s) && HistoryGrows(s, after) && after.tasks == s.tasks - {t}
    requires after.store == s.store && after.persisted == s.persisted && after.victims == s.victims
    requires after.replays == s.replays && after.replay == s.replay
    requires after.detached == s.detached || exists write :: WriteOk(after, write) && after.detached == s.detached[t := write]
    ensures Inv(after)
  {
    hide LogOk, ReplaysOk, WriteOk;
    LogStays(s, after);
    assert forall k :: k in s.detached ==> WriteOk(s, s.detached[k]);
    TasksStay(s, after);
    ReplaysStay(s, after);
  }

  lemma ReadFound(s: State, t: nat)
    requires Inv(s) && Enabled(s, ReadIntent(t)) && s.tasks[t].id in s.store.intents
    ensures Inv(Apply(s, ReadIntent(t)))
  {
    hide LogOk, ReplaysOk, IsReplayList;
    var id := s.tasks[t].id;
    assert TaskOk(s, s.tasks[t]);
    hide TasksOk;
    StoredIsFaithful(s, id);
    MovedKeeps(s, Apply(s, ReadIntent(t)), t, Task(id, Marking(s.store.intents[id], s.tasks[t].phase.status)));
  }

  lemma ReadKeeps(s: State, t: nat)
    requires Inv(s) && Enabled(s, ReadIntent(t))
    ensures Inv(Apply(s, ReadIntent(t)))
  {
    hide Inv, IsReplayList;
    if s.tasks[t].id in s.store.intents {
      ReadFound(s, t);
    } else {
      GoneKeeps(s, Apply(s, ReadIntent(t)), t);
    }
  }

  lemma AbortKeeps(s: State, t: nat)
    requires Inv(s) && Enabled(s, Abort(t))
    ensures Inv(Apply(s, Abort(t)))
  {
    hide LogOk, ReplaysOk, IsReplayList;
    assert TaskOk(s, s.tasks[t]);
    hide TasksOk;
    var after := Apply(s, Abort(t));
    if s.tasks[t].phase.Writing? {
      assert WriteOk(after, s.tasks[t].phase.write);
    }
    GoneKeeps(s, after, t);
  }

  lemma StartKeeps(s: State, t: nat)
    requires Inv(s) && Enabled(s, Start(t))
    ensures Inv(Apply(s, Start(t)))
  {
    hide LogOk, ReplaysOk;
    assert TaskOk(s, s.tasks[t]);
    MovedKeeps(s, Apply(s, Start(t)), t, s.tasks[t].(phase := Running));
  }

  lemma ReturnKeeps(s: State, t: nat, status: TerminalStatus)
    requires Inv(s) && Enabled(s, Return(t, status))
    ensures Inv(Apply(s, Return(t, status)))
  {
    hide LogOk, ReplaysOk;
    assert TaskOk(s, s.tasks[t]);
    MovedKeeps(s, Apply(s, Return(t, status)), t, s.tasks[t].(phase := Returned(status)));
  }

  lemma HandOverKeeps(s: State, t: nat)
    requires Inv(s) && Enabled(s, HandOver(t))
    ensures Inv(Apply(s, HandOver(t)))
  {
    hide LogOk, ReplaysOk;
    assert TaskOk(s, s.tasks[t]);
    MovedKeeps(s, Apply(s, HandOver(t)), t, Apply(s, HandOver(t)).tasks[t]);
  }

  lemma OutcomeKeeps(s: State, write: Intent, after: State)
    requires Inv(s) && WriteOk(s, write) && after.store == Inserted(s.store, write)
    requires exists t: nat ::
      after == s.(store := after.store, tasks := s.tasks - {t}) || after == s.(store := after.store, detached := s.detached - {t})
    ensures Inv(after)
  {
    hide LogOk, ReplaysOk;
    WriteKeepsLog(s, write, after);
    TasksStay(s, after);
    ReplaysStay(s, after);
  }

  lemma CommitKeeps(s: State, t: nat)
    requires Inv(s) && Enabled(s, Commit(t))
    ensures Inv(Apply(s, Commit(t)))
  {
    hide LogOk, ReplaysOk;
    assert TaskOk(s, s.tasks[t]);
    OutcomeKeeps(s, s.tasks[t].phase.write, Apply(s, Commit(t)));
  }

  lemma CommitDetachedKeeps(s: State, t: nat)
    requires Inv(s) && Enabled(s, CommitDetached(t))
    ensures Inv(Apply(s, CommitDetached(t)))
  {
    hide LogOk, ReplaysOk;
    assert WriteOk(s, s.detached[t]);
    OutcomeKeeps(s, s.detached[t], Apply(s, CommitDetached(t)));
  }

  lemma SpawnKeeps(s: State, id: RunId, spec: Spec, now: Micros)
    requires Inv(s) && Enabled(s, Spawn(id, spec, now))
    ensures Inv(Apply(s, Spawn(id, spec, now)))
  {
    hide LogOk, TasksOk, ReplaysOk;
    var after := Apply(s, Spawn(id, spec, now));
    WriteKeepsLog(s, NewIntent(id, spec, now), after);
    TasksPlus(s, after, s.next, Task(id, Persisted));
    ReplaysStay(s, after);
  }

  // ---- Replaying ----

  // The head of the replay list was counted, or is read to be given up on.
  lemma HeadStays(s: State, after: State)
    requires ReplaysOk(s) && HistoryGrows(s, after) && s.replays != [] && after.replays == s.replays
    requires match after.replay
             case Idle => true
             case Counted => s.replays[0].replayCount < REPLAY_LIMIT
             case Limiting(read) =>
               s.replays[0].replayCount >= REPLAY_LIMIT && read.runId == s.replays[0].runId && Faithful(after, read)
    ensures ReplaysOk(after)
  {
    assert forall i :: 0 <= i < |s.replays| ==> Faithful(s, s.replays[i]);
  }

  lemma CountKeeps(s: State)
    requires Inv(s) && Enabled(s, CountReplay)
    ensures Inv(Apply(s, CountReplay))
  {
    hide LogOk, TasksOk;
    var after, head := Apply(s, CountReplay), s.replays[0];
    assert Faithful(s, head);
    WriteKeepsLog(s, head.(replayCount := head.replayCount + 1), after);
    TasksSame(s, after);
    HeadStays(s, after);
  }

  lemma RespawnKeeps(s: State, now: Micros)
    requires Inv(s) && Enabled(s, SpawnReplay(now))
    ensures Inv(Apply(s, SpawnReplay(now)))
  {
    hide LogOk, TasksOk;
    var after, head := Apply(s, SpawnReplay(now)), s.replays[0];
    assert Faithful(s, head);
    WriteKeepsLog(s, NewIntent(head.runId, head.spec, now), after);
    TasksPlus(s, after, s.next, Task(head.runId, Persisted));
    TailStays(s, after);
  }

  lemma LimitKeeps(s: State)
    requires Inv(s) && Enabled(s, WriteLimited)
    ensures Inv(Apply(s, WriteLimited))
  {
    hide LogOk, TasksOk;
    var after := Apply(s, WriteLimited);
    WriteKeepsLog(s, s.replay.read.(terminal := Some(LIMIT_STATUS)), after);
    TasksSame(s, after);
    TailStays(s, after);
  }

  lemma ReadLimitedKeeps(s: State)
    requires Inv(s) && Enabled(s, ReadLimited)
    ensures Inv(Apply(s, ReadLimited))
  {
    hide LogOk, TasksOk, ReplaysOk;
    var after, id := Apply(s, ReadLimited), s.replays[0].runId;
    LogStays(s, after);
    TasksSame(s, after);
    if id in s.store.intents {
      StoredIsFaithful(s, id);
      HeadStays(s, after);
    } else {
      TailStays(s, after);
    }
  }

  lemma MissKeeps(s: State)
    requires Inv(s) && Enabled(s, MissReplay)
    ensures Inv(Apply(s, MissReplay))
  {
    hide LogOk, TasksOk, ReplaysOk;
    var after := Apply(s, MissReplay);
    LogStays(s, after);
    TasksSame(s, after);
    TailStays(s, after);
  }

  // ---- Listing, collecting, crashing ----

  lemma CollectKeepsLog(s: State, cutoff: Micros)
    requires LogOk(s)
    ensures LogOk(s.(victims := Victims(s.store, cutoff)))
  {
    var after := s.(victims := Victims(s.store, cutoff));
    LogStays(s, s.(victims := {}));
    forall v | v in after.victims ensures v in s.store.byNamespace && Accounted(s, v.1) {
      assert v.1 in s.store.intents;
    }
  }

  lemma ListIsOk(s: State, list: seq<Intent>)
    requires LogOk(s) && IsReplayList(s.store, list)
    ensures ReplaysOk(s.(listed := true, replays := list, replay := Idle))
  {
    forall i | 0 <= i < |list| ensures Faithful(s, list[i]) {
      StoredIsFaithful(s, list[i].runId);
    }
  }

  lemma BootKeeps(s: State, list: seq<Intent>)
    requires Inv(s) && Enabled(s, Boot(list))
    ensures Inv(Apply(s, Boot(list)))
  {
    hide LogOk, TasksOk;
    var after := Apply(s, Boot(list));
    LogStays(s, after);
    TasksSame(s, after);
    ListIsOk(s, list);
  }

  lemma CollectKeeps(s: State, cutoff: Micros)
    requires Inv(s) && Enabled(s, CollectVictims(cutoff))
    ensures Inv(Apply(s, CollectVictims(cutoff)))
  {
    hide LogOk, TasksOk;
    var after := s.(victims := Victims(s.store, cutoff));
    CollectKeepsLog(s, cutoff);
    TasksSame(s, after);
    ReplaysStay(s, after);
  }

  lemma CrashKeeps(s: State)
    requires Inv(s)
    ensures Inv(Apply(s, Crash))
  {
    hide LogOk;
    LogStays(s, Apply(s, Crash));
  }

  lemma DeleteKeeps(s: State)
    requires Inv(s) && Enabled(s, DeleteVictims)
    ensures Inv(Apply(s, DeleteVictims))
  {
    hide LogOk, TasksOk, ReplaysOk;
    var after := Apply(s, DeleteVictims);
    DeleteKeepsLog(s);
    TasksSame(s, after);
    ReplaysStay(s, after);
  }

  lemma DeleteKeepsLog(s: State)
    requires LogOk(s) && Enabled(s, DeleteVictims)
    ensures LogOk(Apply(s, DeleteVictims))
  {
    var after := Apply(s, DeleteVictims);
    DeleteExact(s.store, s.victims);
    forall id | id in after.store.intents ensures Faithful(after, after.store.intents[id]) {
      assert Faithful(s, s.store.intents[id]);
    }
    forall id | id in s.persisted ensures Open(after, id) || Accounted(after, id) {
      if Open(s, id) && (s.store.intents[id].spec.namespace, id) in s.victims {
        assert Accounted(s, id);
      }
    }
  }

  /** Every step and every crash keeps the log, the tasks and the replay list in order. */
  lemma StepKeeps(s: State, e: Event)
    requires Inv(s) && Enabled(s, e)
    ensures Inv(Apply(s, e))
  {
    hide Inv, LogOk, TasksOk, ReplaysOk, IsReplayList;
    match e {
      case Boot(list) => BootKeeps(s, list);
      case Spawn(id, spec, now) => SpawnKeeps(s, id, spec, now);
      case Start(t) => StartKeeps(s, t);
      case Return(t, status) => ReturnKeeps(s, t, status);
      case ReadIntent(t) => ReadKeeps(s, t);
      case HandOver(t) => HandOverKeeps(s, t);
      case Abort(t) => AbortKeeps(s, t);
      case Commit(t) => CommitKeeps(s, t);
      case CommitDetached(t) => CommitDetachedKeeps(s, t);
      case CountReplay => CountKeeps(s);
      case SpawnReplay(now) => RespawnKeeps(s, now);
      case MissReplay => MissKeeps(s);
      case ReadLimited => ReadLimitedKeeps(s);
      case WriteLimited => LimitKeeps(s);
      case CollectVictims(cutoff) => CollectKeeps(s, cutoff);
      case DeleteVictims => DeleteKeeps(s);
      case Crash => CrashKeeps(s);
    }
  }

  /** Over every interleaving of steps and crashes, from any state these hold in. */
  lemma {:induction false} RunKeeps(s: State, run: seq<Event>)
    requires Inv(s) && IsRun(s, run)
    ensures Inv(After(s, run))
    decreases |run|
  {
    if run != [] {
      StepKeeps(s, run[0]);
      RunKeeps(Apply(s, run[0]), run[1..]);
    }
  }

  lemma FirstIsOk()
    ensures Inv(FIRST)
  {
  }

  /**
    From an empty log: every run persisted can still be replayed, or an invocation of it has
    returned, or the replay limit failed it; what is stored is what was asked for, with the
    authority it was asked with; and the namespace index is exact.
   */
  lemma IntentsAreAtLeastOnce(run: seq<Event>)
    requires IsRun(FIRST, run)
    ensures var s := After(FIRST, run);
      && IndexExact(s.store)
      && (forall id :: id in s.persisted ==>
            (id in s.store.intents && s.store.intents[id].terminal.None?) || id in s.returned || id in s.limited)
      && (forall id :: id in s.store.intents ==> id in s.persisted && s.store.intents[id].spec == s.persisted[id])
      && (forall t :: t in s.tasks ==> s.tasks[t].id in s.persisted)
  {
    FirstIsOk();
    RunKeeps(FIRST, run);
    var s := After(FIRST, run);
    forall id | id in s.store.intents ensures id in s.persisted && s.store.intents[id].spec == s.persisted[id] {
      assert Faithful(s, s.store.intents[id]);
    }
    forall t | t in s.tasks ensures s.tasks[t].id in s.persisted {
      assert TaskOk(s, s.tasks[t]);
    }
  }

  // ---- Putting runs together ----

  lemma OneStep(s: State, e: Event)
    requires Enabled(s, e)
    ensures IsRun(s, [e]) && After(s, [e]) == Apply(s, e)
  {
    assert IsRun(Apply(s, e), []);
  }

  lemma {:induction false} RunsJoin(s: State, a: seq<Event>, b: seq<Event>)
    requires IsRun(s, a) && IsRun(After(s, a), b)
    ensures IsRun(s, a + b) && After(s, a + b) == After(After(s, a), b)
    decreases |a|
  {
    hide Enabled, Apply;
    if a == [] {
      assert a + b == b;
    } else {
      RunsJoin(Apply(s, a[0]), a[1..], b);
      assert (a + b)[1..] == a[1..] + b;
    }
  }

  lemma RunGrows(s: State, run: seq<Event>, e: Event)
    requires IsRun(s, run) && Enabled(After(s, run), e)
    ensures IsRun(s, run + [e]) && After(s, run + [e]) == Apply(After(s, run), e)
  {
    OneStep(After(s, run), e);
    RunsJoin(s, run, [e]);
  }
}
