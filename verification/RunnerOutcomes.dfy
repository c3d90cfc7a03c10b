/**
  What the intent log says of a finished run: an outcome is stored only if an invocation of that
  very run returned it, or the replay limit wrote its own.
 */
module RunnerOutcomes {
  import opened Wrappers
  import opened RunnerIntents
  import opened RunnerRuns

  // The outcome this event reports, with the run it is for.
  function ReportOf(s: State, e: Event): set<(RunId, TerminalStatus)> {
    if e.Return? && e.task in s.tasks then {(s.tasks[e.task].id, e.status)} else {}
  }

  // All outcomes invocations returned during a run.
  ghost function Reported(s: State, run: seq<Event>): set<(RunId, TerminalStatus)>
    requires IsRun(s, run)
    decreases |run|
  {
    if run == [] then {} else ReportOf(s, run[0]) + Reported(Apply(s, run[0]), run[1..])
  }

  // Reported for the run, or written for it by the replay limit.
  predicate Vouched(s: State, reports: set<(RunId, TerminalStatus)>, id: RunId, status: TerminalStatus) {
    || (id, status) in reports
    || (id in s.limited && status == Failed("replay loop exceeded limit (>10 restarts)"))
  }

  predicate StoreVouched(s: State, reports: set<(RunId, TerminalStatus)>) {
    forall id :: id in s.store.intents && s.store.intents[id].terminal.Some? ==>
      Vouched(s, reports, id, s.store.intents[id].terminal.value)
  }

  predicate TaskVouched(reports: set<(RunId, TerminalStatus)>, task: Task) {
    match task.phase
    case Persisted => true
    case Running => true
    case Returned(status) => (task.id, status) in reports
    case Marking(_, status) => (task.id, status) in reports
    case Writing(write) => WriteVouched(reports, write)
  }

  predicate WriteVouched(reports: set<(RunId, TerminalStatus)>, write: Intent) {
    write.terminal.Some? && (write.runId, write.terminal.value) in reports
  }

  predicate MemoryVouched(s: State, reports: set<(RunId, TerminalStatus)>) {
    && (forall t :: t in s.tasks ==> TaskVouched(reports, s.tasks[t]))
    && (forall t :: t in s.detached ==> WriteVouched(reports, s.detached[t]))
  }

  // Writing one intent whose outcome, if any, is vouched for.
  lemma WriteStaysVouched(s: State, i: Intent, after: State, reports: set<(RunId, TerminalStatus)>)
    requires StoreVouched(s, reports) && after.store == Inserted(s.store, i) && s.limited <= after.limited
    requires i.terminal.Some? ==> Vouched(after, reports, i.runId, i.terminal.value)
    ensures StoreVouched(after, reports)
  {
  }

  lemma TaskStepStore(s: State, e: Event, reports: set<(RunId, TerminalStatus)>)
    requires Inv(s) && Enabled(s, e) && OfTask(e) && StoreVouched(s, reports) && MemoryVouched(s, reports)
    ensures StoreVouched(Apply(s, e), reports)
  {
    hide LogOk, TasksOk, ReplaysOk, IsReplayList;
    match e {
      case Commit(t) => WriteStaysVouched(s, s.tasks[t].phase.write, Apply(s, e), reports);
      case CommitDetached(t) => WriteStaysVouched(s, s.detached[t], Apply(s, e), reports);
      case _ =>
    }
  }

  // One task moves on, the others and the writes on their way stay.
  lemma MovedVouched(s: State, t: nat, phase: Phase, reports: set<(RunId, TerminalStatus)>, more: set<(RunId, TerminalStatus)>)
    requires MemoryVouched(s, reports) && reports <= more && t in s.tasks
    requires TaskVouched(more, s.tasks[t].(phase := phase))
    ensures MemoryVouched(Moved(s, t, phase), more)
  {
  }

  lemma GoneVouched(s: State, t: nat, reports: set<(RunId, TerminalStatus)>)
    requires MemoryVouched(s, reports)
    ensures MemoryVouched(s.(tasks := s.tasks - {t}), reports)
    ensures MemoryVouched(s.(detached := s.detached - {t}), reports)
    ensures t in s.tasks && s.tasks[t].phase.Writing? ==>
              MemoryVouched(s.(tasks := s.tasks - {t}, detached := s.detached[t := s.tasks[t].phase.write]), reports)
  {
    assert t in s.tasks ==> TaskVouched(reports, s.tasks[t]);
  }

  // What a task holds in memory is all that counts.
  lemma SameMemory(s: State, after: State, reports: set<(RunId, TerminalStatus)>)
    requires MemoryVouched(s, reports) && after.tasks == s.tasks && after.detached == s.detached
    ensures MemoryVouched(after, reports)
  {
  }

  lemma MoveMemory(s: State, e: Event, reports: set<(RunId, TerminalStatus)>)
    requires Inv(s) && Enabled(s, e) && (e.Start? || e.Return? || e.HandOver?) && MemoryVouched(s, reports)
    ensures MemoryVouched(Apply(s, e), reports + ReportOf(s, e))
  {
    var after, t := Apply(s, e), e.task;
    assert TaskOk(s, s.tasks[t]) && TaskVouched(reports, s.tasks[t]);
    hide Inv, MemoryVouched, IsReplayList;
    MovedVouched(s, t, after.tasks[t].phase, reports, reports + ReportOf(s, e));
    SameMemory(Moved(s, t, after.tasks[t].phase), after, reports + ReportOf(s, e));
  }

  lemma ReadMemory(s: State, t: nat, reports: set<(RunId, TerminalStatus)>)
    requires Enabled(s, ReadIntent(t)) && MemoryVouched(s, reports)
    ensures MemoryVouched(Apply(s, ReadIntent(t)), reports)
  {
    var after := Apply(s, ReadIntent(t));
    assert TaskVouched(reports, s.tasks[t]);
    hide MemoryVouched, IsReplayList;
    if s.tasks[t].id in s.store.intents {
      MovedVouched(s, t, after.tasks[t].phase, reports, reports);
    } else {
      GoneVouched(s, t, reports);
    }
  }

  lemma EndMemory(s: State, e: Event, reports: set<(RunId, TerminalStatus)>)
    requires Enabled(s, e) && (e.Commit? || e.Abort? || e.CommitDetached?) && MemoryVouched(s, reports)
    ensures MemoryVouched(Apply(s, e), reports)
  {
    hide MemoryVouched, IsReplayList;
    var after, t := Apply(s, e), e.task;
    GoneVouched(s, t, reports);
    if e.CommitDetached? {
      SameMemory(s.(detached := s.detached - {t}), after, reports);
    } else if e.Abort? && s.tasks[t].phase.Writing? {
      SameMemory(s.(tasks := s.tasks - {t}, detached := s.detached[t := s.tasks[t].phase.write]), after, reports);
    } else {
      SameMemory(s.(tasks := s.tasks - {t}), after, reports);
    }
  }

  lemma TaskStepMemory(s: State, e: Event, reports: set<(RunId, TerminalStatus)>)
    requires Inv(s) && Enabled(s, e) && OfTask(e) && MemoryVouched(s, reports)
    ensures MemoryVouched(Apply(s, e), reports + ReportOf(s, e))
  {
    hide Inv, Apply, Enabled, MemoryVouched;
    assert !e.Return? ==> reports + ReportOf(s, e) == reports;
    match e {
      case ReadIntent(t) => ReadMemory(s, t, reports);
      case Commit(_) => EndMemory(s, e, reports);
      case Abort(_) => EndMemory(s, e, reports);
      case CommitDetached(_) => EndMemory(s, e, reports);
      case _ => MoveMemory(s, e, reports);
    }
  }

  // The replayed head, counted or spawned again, is written open.
  lemma HeadStore(s: State, e: Event, reports: set<(RunId, TerminalStatus)>)
    requires Inv(s) && Enabled(s, e) && (e.CountReplay? || e.SpawnReplay?) && StoreVouched(s, reports)
    ensures StoreVouched(Apply(s, e), reports)
  {
    var head := s.replays[0];
    assert head.terminal.None?;
    hide Inv, IsReplayList, StoreVouched;
    WriteStaysVouched(s, if e.CountReplay? then head.(replayCount := head.replayCount + 1) else NewIntent(head.runId, head.spec, e.now),
                      Apply(s, e), reports);
  }

  lemma LimitStore(s: State, reports: set<(RunId, TerminalStatus)>)
    requires Inv(s) && Enabled(s, WriteLimited) && StoreVouched(s, reports)
    ensures StoreVouched(Apply(s, WriteLimited), reports)
  {
    assert s.replay.read.runId == s.replays[0].runId;
    hide Inv, IsReplayList, StoreVouched;
    WriteStaysVouched(s, s.replay.read.(terminal := Some(LIMIT_STATUS)), Apply(s, WriteLimited), reports);
  }

  lemma ReplayStepStore(s: State, e: Event, reports: set<(RunId, TerminalStatus)>)
    requires Inv(s) && Enabled(s, e) && OfReplay(e) && StoreVouched(s, reports)
    ensures StoreVouched(Apply(s, e), reports)
  {
    hide Inv, IsReplayList, StoreVouched;
    if e.CountReplay? || e.SpawnReplay? {
      HeadStore(s, e, reports);
    } else if e.WriteLimited? {
      LimitStore(s, reports);
    } else {
      StoreSame(s, Apply(s, e), reports);
    }
  }

  lemma StoreSame(s: State, after: State, reports: set<(RunId, TerminalStatus)>)
    requires StoreVouched(s, reports) && after.store == s.store && s.limited <= after.limited
    ensures StoreVouched(after, reports)
  {
  }

  lemma OtherStepMemory(s: State, e: Event, reports: set<(RunId, TerminalStatus)>)
    requires Enabled(s, e) && !OfTask(e) && MemoryVouched(s, reports)
    ensures MemoryVouched(Apply(s, e), reports)
  {
    hide IsReplayList, MemoryVouched;
    if e.Spawn? || e.SpawnReplay? {
      SpawnedMemory(s, Apply(s, e), if e.Spawn? then e.id else s.replays[0].runId, reports);
    } else if e.Crash? {
      EmptyMemory(Apply(s, e), reports);
    } else {
      SameMemory(s, Apply(s, e), reports);
    }
  }

  lemma SpawnedMemory(s: State, after: State, id: RunId, reports: set<(RunId, TerminalStatus)>)
    requires MemoryVouched(s, reports) && after.tasks == s.tasks[s.next := Task(id, Persisted)] && after.detached == s.detached
    ensures MemoryVouched(after, reports)
  {
  }

  lemma EmptyMemory(s: State, reports: set<(RunId, TerminalStatus)>)
    requires s.tasks == map[] && s.detached == map[]
    ensures MemoryVouched(s, reports)
  {
  }

  lemma StepVouched(s: State, e: Event, reports: set<(RunId, TerminalStatus)>)
    requires Inv(s) && Enabled(s, e) && StoreVouched(s, reports) && MemoryVouched(s, reports)
    ensures StoreVouched(Apply(s, e), reports + ReportOf(s, e)) && MemoryVouched(Apply(s, e), reports + ReportOf(s, e))
  {
    if OfTask(e) {
      hide Inv, IsReplayList, MemoryVouched, Apply;
      TaskStepMemory(s, e, reports);
      TaskStepStore(s, e, reports);
    } else {
      OtherStepMemory(s, e, reports);
      if OfReplay(e) {
        hide Inv, IsReplayList, MemoryVouched, Apply;
        ReplayStepStore(s, e, reports);
      } else {
        hide Inv, IsReplayList, MemoryVouched;
      }
    }
  }

  lemma {:induction false} RunVouched(s: State, run: seq<Event>, reports: set<(RunId, TerminalStatus)>)
    requires Inv(s) && IsRun(s, run) && StoreVouched(s, reports) && MemoryVouched(s, reports)
    ensures StoreVouched(After(s, run), reports + Reported(s, run))
    decreases |run|
  {
    hide Inv, StoreVouched, MemoryVouched, Enabled, Apply;
    if run == [] {
      assert reports + Reported(s, run) == reports;
    } else {
      StepKeeps(s, run[0]);
      StepVouched(s, run[0], reports);
      RunVouched(Apply(s, run[0]), run[1..], reports + ReportOf(s, run[0]));
      assert reports + ReportOf(s, run[0]) + Reported(Apply(s, run[0]), run[1..]) == reports + Reported(s, run);
    }
  }

  // What the state remembers of the run, event by event.
  ghost predicate Remembers(s: State, reports: set<(RunId, TerminalStatus)>) {
    forall id :: id in s.returned <==> exists status :: (id, status) in reports
  }

  lemma StepRemembers(s: State, e: Event, reports: set<(RunId, TerminalStatus)>)
    requires Enabled(s, e) && Remembers(s, reports)
    ensures Remembers(Apply(s, e), reports + ReportOf(s, e))
  {
    hide IsReplayList;
    if e.Return? {
      var id := s.tasks[e.task].id;
      assert ReportOf(s, e) == {(id, e.status)};
      assert Apply(s, e).returned == s.returned + {id};
      assert (id, e.status) in reports + ReportOf(s, e);
    } else {
      assert reports + ReportOf(s, e) == reports;
      assert Apply(s, e).returned == s.returned;
    }
  }

  lemma {:induction false} RunRemembers(s: State, run: seq<Event>, reports: set<(RunId, TerminalStatus)>)
    requires IsRun(s, run) && Remembers(s, reports)
    ensures Remembers(After(s, run), reports + Reported(s, run))
    decreases |run|
  {
    hide Remembers, Enabled, Apply;
    if run == [] {
      assert reports + Reported(s, run) == reports;
    } else {
      StepRemembers(s, run[0], reports);
      RunRemembers(Apply(s, run[0]), run[1..], reports + ReportOf(s, run[0]));
      assert reports + ReportOf(s, run[0]) + Reported(Apply(s, run[0]), run[1..]) == reports + Reported(s, run);
    }
  }

  /** The runs counted as returned are those an invocation reported an outcome for. */
  lemma ReturnedIff(run: seq<Event>, id: RunId)
    requires IsRun(FIRST, run)
    ensures id in After(FIRST, run).returned <==> exists status :: (id, status) in Reported(FIRST, run)
  {
    RunRemembers(FIRST, run, {});
    assert {} + Reported(FIRST, run) == Reported(FIRST, run);
  }

  /**
    After any run, restarts, cancellations and lost updates included, every outcome the log holds
    was returned by an invocation of that run, or is the limit's own on a run it gave up on.
   */
  lemma OutcomesAreReported(run: seq<Event>, id: RunId)
    requires IsRun(FIRST, run) && id in After(FIRST, run).store.intents
    requires After(FIRST, run).store.intents[id].terminal.Some?
    ensures Vouched(After(FIRST, run), Reported(FIRST, run), id, After(FIRST, run).store.intents[id].terminal.value)
  {
    FirstIsOk();
    RunVouched(FIRST, run, {});
    assert {} + Reported(FIRST, run) == Reported(FIRST, run);
  }
}
