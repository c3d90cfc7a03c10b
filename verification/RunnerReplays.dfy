/**
  What replaying means for a run: when a restart is certain to bring it back, when a collection
  can lose it, and what the replay limit does and does not bound.
 */
module RunnerReplays {
  import opened Wrappers
  import opened RunnerIntents
  import opened RunnerRuns

  // ---- Whether a restart is certain to bring a run back ----

  predicate AtWork(s: State, id: RunId) {
    || (exists t :: t in s.tasks && s.tasks[t].id == id)
    || (exists t :: t in s.detached && s.detached[t].runId == id)
    || Awaits(s.replays, id)
  }

  predicate Awaits(list: seq<Intent>, id: RunId) {
    exists i :: 0 <= i < |list| && list[i].runId == id
  }

  predicate Doomed(s: State, id: RunId) {
    exists v :: v in s.victims && v.1 == id
  }

  // The intent has no outcome, and nothing in the process is going to write one or delete it.
  predicate Dropped(s: State, id: RunId) {
    Open(s, id) && !AtWork(s, id) && !Doomed(s, id)
  }

  // Neither a boot, nor a collection, nor a crash.
  predicate Calm(run: seq<Event>) {
    forall e :: e in run ==> !e.Boot? && !e.CollectVictims? && !e.DeleteVictims? && !e.Crash?
  }

  predicate NoBoot(run: seq<Event>) {
    forall e :: e in run ==> !e.Boot?
  }

  // Whatever happens until a process lists what to replay, it lists this run.
  ghost predicate ReplayIsCertain(s: State, id: RunId) {
    forall run, list :: IsRun(s, run) && NoBoot(run) && Enabled(After(s, run), Boot(list)) ==> Awaits(list, id)
  }

  lemma DroppedStaysOpen(s: State, e: Event, id: RunId)
    requires Inv(s) && Dropped(s, id) && Enabled(s, e) && !e.Boot?
    ensures Open(Apply(s, e), id)
  {
    hide LogOk, IsReplayList, Victims;
    if e.Commit? {
      assert TaskOk(s, s.tasks[e.task]);
    }
  }

  // Where a task found after a step was before it.
  lemma TaskBefore(s: State, e: Event, t: nat)
    requires Enabled(s, e) && t in Apply(s, e).tasks
    ensures var id := Apply(s, e).tasks[t].id;
      || (t in s.tasks && s.tasks[t].id == id)
      || (e.Spawn? && e.id == id)
      || (e.SpawnReplay? && s.replays[0].runId == id)
  {
    hide TaskStep, IsReplayList, Victims, Inserted, Deleted;
  }

  lemma DroppedHasNoTask(s: State, e: Event, id: RunId, t: nat)
    requires Inv(s) && Dropped(s, id) && Enabled(s, e) && !e.Boot? && t in Apply(s, e).tasks
    ensures Apply(s, e).tasks[t].id != id
  {
    hide Inv, Apply, IsReplayList, Doomed;
    TaskBefore(s, e, t);
    OpenIsPersisted(s, id);
    assert e.SpawnReplay? ==> s.replays[0].runId != id;
  }

  lemma OpenIsPersisted(s: State, id: RunId)
    requires Inv(s) && Open(s, id)
    ensures id in s.persisted
  {
    StoredIsFaithful(s, id);
  }

  // A write still on its way after a step was so before it, or its task has just been aborted.
  lemma WriteBefore(s: State, e: Event, t: nat)
    requires Enabled(s, e) && t in Apply(s, e).detached
    ensures var write := Apply(s, e).detached[t];
      || (t in s.detached && s.detached[t] == write)
      || (e == Abort(t) && s.tasks[t].phase == Writing(write))
  {
    hide ReplayStep, IsReplayList, Victims, Inserted, Deleted;
  }

  lemma DroppedHasNoWrite(s: State, e: Event, id: RunId, t: nat)
    requires Inv(s) && Dropped(s, id) && Enabled(s, e) && !e.Boot? && t in Apply(s, e).detached
    ensures Apply(s, e).detached[t].runId != id
  {
    hide LogOk, ReplaysOk, Apply, IsReplayList, Doomed, WriteOk;
    WriteBefore(s, e, t);
    if e.Abort? {
      assert TaskOk(s, s.tasks[e.task]);
    }
  }

  lemma DroppedHasNoReplay(s: State, e: Event, id: RunId)
    requires Inv(s) && Dropped(s, id) && Enabled(s, e) && !e.Boot?
    ensures !Awaits(Apply(s, e).replays, id)
  {
    hide TaskStep, LogOk, TasksOk, ReplaysOk, IsReplayList, Victims, Inserted, Deleted, Doomed;
    var after := Apply(s, e);
    assert after.replays == s.replays || after.replays == [] || (s.replays != [] && after.replays == s.replays[1..]);
  }

  lemma DroppedIsNotDoomed(s: State, e: Event, id: RunId)
    requires Inv(s) && Dropped(s, id) && Enabled(s, e) && !e.Boot?
    ensures !Doomed(Apply(s, e), id)
  {
    hide TaskStep, ReplayStep, LogOk, TasksOk, ReplaysOk, IsReplayList, Inserted, Deleted;
  }

  lemma DroppedStep(s: State, e: Event, id: RunId)
    requires Inv(s) && Dropped(s, id) && Enabled(s, e) && !e.Boot?
    ensures Dropped(Apply(s, e), id)
  {
    hide Inv, Enabled, Apply, Open, Awaits, Doomed, IsReplayList;
    var after := Apply(s, e);
    DroppedStaysOpen(s, e, id);
    DroppedHasNoReplay(s, e, id);
    DroppedIsNotDoomed(s, e, id);
    forall t | t in after.tasks ensures after.tasks[t].id != id {
      DroppedHasNoTask(s, e, id, t);
    }
    forall t | t in after.detached ensures after.detached[t].runId != id {
      DroppedHasNoWrite(s, e, id, t);
    }
  }

  lemma {:induction false} DroppedStays(s: State, run: seq<Event>, id: RunId)
    requires Inv(s) && Dropped(s, id) && IsRun(s, run) && NoBoot(run)
    ensures Dropped(After(s, run), id)
    decreases |run|
  {
    if run != [] {
      DroppedStep(s, run[0], id);
      StepKeeps(s, run[0]);
      DroppedStays(Apply(s, run[0]), run[1..], id);
    }
  }

  // ---- Runs that close an intent ----

  lemma Prepend(s: State, e: Event, rest: seq<Event>)
    requires Enabled(s, e) && IsRun(Apply(s, e), rest)
    ensures IsRun(s, [e] + rest) && After(s, [e] + rest) == After(Apply(s, e), rest)
    ensures !e.Boot? && NoBoot(rest) ==> NoBoot([e] + rest)
    ensures !e.Boot? && !e.CollectVictims? && !e.DeleteVictims? && !e.Crash? && Calm(rest) ==> Calm([e] + rest)
  {
    assert ([e] + rest)[1..] == rest;
  }

  function Rank(phase: Phase): nat {
    match phase
    case Persisted => 4
    case Running => 3
    case Returned(_) => 2
    case Marking(_, _) => 1
    case Writing(_) => 0
  }

  // What a task does next when nothing stops it.
  function NextMove(s: State, t: nat): Event
    requires t in s.tasks
  {
    match s.tasks[t].phase
    case Persisted => Start(t)
    case Running => Return(t, Succeeded)
    case Returned(_) => ReadIntent(t)
    case Marking(_, _) => HandOver(t)
    case Writing(_) => Commit(t)
  }

  lemma NextMoveMoves(s: State, t: nat)
    requires t in s.tasks && TaskOk(s, s.tasks[t])
    ensures Enabled(s, NextMove(s, t))
    ensures var after := Apply(s, NextMove(s, t));
      if t in after.tasks then after.tasks[t].id == s.tasks[t].id && Rank(after.tasks[t].phase) < Rank(s.tasks[t].phase)
      else !Open(after, s.tasks[t].id)
  {
    hide ReplayStep, IsReplayList, Victims, Deleted, Faithful;
    match s.tasks[t].phase {
      case Persisted =>
      case Running =>
      case Returned(_) =>
      case Marking(_, _) =>
      case Writing(_) =>
    }
  }

  lemma {:induction false} CloseTask(s: State, t: nat) returns (run: seq<Event>)
    requires Inv(s) && t in s.tasks
    ensures IsRun(s, run) && NoBoot(run) && !Open(After(s, run), s.tasks[t].id)
    decreases Rank(s.tasks[t].phase)
  {
    assert TaskOk(s, s.tasks[t]);
    hide Inv, TaskOk, Enabled, Apply, Rank, Open, IsReplayList;
    var e := NextMove(s, t);
    NextMoveMoves(s, t);
    var after := Apply(s, e);
    var rest := [];
    if t in after.tasks {
      StepKeeps(s, e);
      rest := CloseTask(after, t);
    }
    Prepend(s, e, rest);
    run := [e] + rest;
  }

  // What the boot loop can do with the head of its list, short of spawning it.
  function PassHead(s: State): Event
    requires s.replays != []
  {
    match s.replay
    case Counted => MissReplay
    case Limiting(_) => WriteLimited
    case Idle => if s.replays[0].replayCount + 1 <= REPLAY_LIMIT then CountReplay else ReadLimited
  }

  lemma PassHeadMoves(s: State)
    requires s.replays != []
    ensures Enabled(s, PassHead(s))
    ensures var after := Apply(s, PassHead(s));
      && after.victims == s.victims
      && (|| (after.replays == s.replays[1..] && after.replay.Idle?)
          || (after.replays == s.replays && s.replay.Idle? && !after.replay.Idle?))
  {
  }

  // A run after which the boot loop is at the `i`-th intent of its list.
  lemma {:induction false} BringToHead(s: State, i: nat) returns (run: seq<Event>)
    requires Inv(s) && i < |s.replays|
    ensures IsRun(s, run) && Calm(run) && NoBoot(run)
    ensures var after := After(s, run); Inv(after) && after.replays == s.replays[i..] && after.victims == s.victims
    decreases i, s.replay.Idle?
  {
    hide Inv, IsReplayList;
    if i == 0 {
      run := [];
    } else {
      var e := PassHead(s);
      PassHeadMoves(s);
      StepKeeps(s, e);
      var after := Apply(s, e);
      var rest := BringToHead(after, if after.replays == s.replays then i else i - 1);
      Prepend(s, e, rest);
      run := [e] + rest;
    }
  }

  // Spawned again, the head of the list has a task; passed over, it waits on or is closed.
  lemma HeadMoves(s: State)
    requires Inv(s) && s.replays != []
    ensures s.replay.Counted? ==>
              Enabled(s, SpawnReplay(0))
              && var after := Apply(s, SpawnReplay(0)); s.next in after.tasks && after.tasks[s.next].id == s.replays[0].runId
    ensures !s.replay.Counted? ==>
              var after := Apply(s, PassHead(s)); Open(after, s.replays[0].runId) ==>
                after.replays == s.replays && s.replay.Idle? && !after.replay.Idle?
  {
    hide LogOk, TasksOk, IsReplayList;
  }

  lemma {:induction false} CloseHead(s: State) returns (run: seq<Event>)
    requires Inv(s) && s.replays != []
    ensures IsRun(s, run) && NoBoot(run) && !Open(After(s, run), s.replays[0].runId)
    decreases s.replay.Idle?
  {
    hide Inv, Enabled, Apply, Open;
    PassHeadMoves(s);
    HeadMoves(s);
    var e := if s.replay.Counted? then SpawnReplay(0) else PassHead(s);
    StepKeeps(s, e);
    var after := Apply(s, e);
    var rest := [];
    if s.replay.Counted? {
      rest := CloseTask(after, s.next);
    } else if Open(after, s.replays[0].runId) {
      rest := CloseHead(after);
    }
    Prepend(s, e, rest);
    run := [e] + rest;
  }

  lemma CloseDetached(s: State, t: nat)
    requires Inv(s) && t in s.detached
    ensures Enabled(s, CommitDetached(t)) && !Open(Apply(s, CommitDetached(t)), s.detached[t].runId)
  {
    assert WriteOk(s, s.detached[t]);
  }

  lemma DeleteCloses(s: State, id: RunId)
    requires Doomed(s, id)
    ensures Enabled(s, DeleteVictims) && !Open(Apply(s, DeleteVictims), id)
  {
    var v :| v in s.victims && v.1 == id;
  }

  // Unless a run is dropped, its intent can be closed before any restart.
  lemma CanClose(s: State, id: RunId) returns (run: seq<Event>)
    requires Inv(s) && !Dropped(s, id)
    ensures IsRun(s, run) && NoBoot(run) && !Open(After(s, run), id)
  {
    hide Inv, IsReplayList;
    if !Open(s, id) {
      run := [];
    } else if Doomed(s, id) {
      DeleteCloses(s, id);
      Prepend(s, DeleteVictims, []);
      run := [DeleteVictims] + [];
    } else if t :| t in s.tasks && s.tasks[t].id == id {
      run := CloseTask(s, t);
    } else if t :| t in s.detached && s.detached[t].runId == id {
      CloseDetached(s, t);
      Prepend(s, CommitDetached(t), []);
      run := [CommitDetached(t)] + [];
    } else {
      var i :| 0 <= i < |s.replays| && s.replays[i].runId == id;
      var first := BringToHead(s, i);
      var rest := CloseHead(After(s, first));
      RunsJoin(s, first, rest);
      run := first + rest;
    }
  }

  // A list of what is open always exists.
  lemma ListsMore(i: Intent, rest: seq<Intent>, id: RunId)
    requires id == i.runId || Awaits(rest, id)
    ensures Awaits([i] + rest, id)
  {
    var list := [i] + rest;
    if id == i.runId {
      assert list[0].runId == id;
    } else {
      var k :| 0 <= k < |rest| && rest[k].runId == id;
      assert list[k + 1].runId == id;
    }
  }

  lemma {:induction false} ListOpen(s: Store, ids: set<RunId>) returns (list: seq<Intent>)
    requires IndexExact(s) && ids <= s.intents.Keys
    ensures forall i :: 0 <= i < |list| ==>
              list[i].runId in ids && s.intents[list[i].runId] == list[i] && list[i].terminal.None?
    ensures forall i, j :: 0 <= i < j < |list| ==> list[i].runId != list[j].runId
    ensures forall id :: id in ids && s.intents[id].terminal.None? ==> Awaits(list, id)
    decreases |ids|
  {
    if ids == {} {
      list := [];
    } else {
      var id :| id in ids;
      assert s.intents[id].runId == id;
      hide IndexExact, Awaits;
      list := ListOpen(s, ids - {id});
      if s.intents[id].terminal.None? {
        var rest := list;
        list := [s.intents[id]] + rest;
        forall k | k in ids && s.intents[k].terminal.None? ensures Awaits(list, k) {
          ListsMore(s.intents[id], rest, k);
        }
      }
    }
  }

  lemma ListAfterCrash(s: State) returns (list: seq<Intent>)
    requires Inv(s)
    ensures Enabled(Apply(s, Crash), Boot(list))
  {
    list := ListOpen(s.store, s.store.intents.Keys);
    forall id | id in s.store.intents && s.store.intents[id].terminal.None?
      ensures exists i :: 0 <= i < |list| && list[i].runId == id
    {
      assert Awaits(list, id);
    }
  }

  lemma ClosedIsNotListed(s: Store, list: seq<Intent>, id: RunId)
    requires IsReplayList(s, list)
    ensures Awaits(list, id) <==> id in s.intents && s.intents[id].terminal.None?
  {
  }

  /**
    A restart is certain to bring a run back exactly when its intent has no outcome, no task, no
    write on its way and no pending replay is left to give it one, and no collection is about to
    delete it.
   */
  lemma ReplayIsCertainIff(s: State, id: RunId)
    requires Inv(s)
    ensures ReplayIsCertain(s, id) <==> Dropped(s, id)
  {
    hide Inv, Dropped, IsReplayList;
    if Dropped(s, id) {
      forall run, list | IsRun(s, run) && NoBoot(run) && Enabled(After(s, run), Boot(list)) ensures Awaits(list, id) {
        DroppedStays(s, run, id);
        DroppedIsListed(After(s, run), list, id);
      }
    } else {
      var run := CanClose(s, id);
      RunKeeps(s, run);
      var list := ListAfterCrash(After(s, run));
      RunGrows(s, run, Crash);
      assert NoBoot(run + [Crash]);
      CrashedIsNotListed(After(s, run), list, id);
    }
  }

  lemma DroppedIsListed(s: State, list: seq<Intent>, id: RunId)
    requires Dropped(s, id) && Enabled(s, Boot(list))
    ensures Awaits(list, id)
  {
    ClosedIsNotListed(s.store, list, id);
  }

  lemma CrashedIsNotListed(s: State, list: seq<Intent>, id: RunId)
    requires !Open(s, id) && Enabled(Apply(s, Crash), Boot(list))
    ensures !Awaits(list, id)
  {
    ClosedIsNotListed(s.store, list, id);
  }

  // Something besides this task can still give its run an outcome.
  predicate OthersAtWork(s: State, t: nat)
    requires t in s.tasks
  {
    var id := s.tasks[t].id;
    || (exists other :: other in s.tasks && other != t && s.tasks[other].id == id)
    || (exists other :: other in s.detached && s.detached[other].runId == id)
    || Awaits(s.replays, id)
  }

  /**
    A cancelled run comes back: aborting a task makes its run certain to be replayed exactly when
    the intent is open, no outcome was handed to the blocking pool yet, nothing else in the
    process works for the run, and no collection is about to delete it.
   */
  lemma CancelledIsReplayedIff(s: State, t: nat)
    requires Inv(s) && t in s.tasks
    ensures var id := s.tasks[t].id;
      ReplayIsCertain(Apply(s, Abort(t)), id)
      <==> Open(s, id) && !s.tasks[t].phase.Writing? && !OthersAtWork(s, t) && !Doomed(s, id)
  {
    var id, after := s.tasks[t].id, Apply(s, Abort(t));
    StepKeeps(s, Abort(t));
    ReplayIsCertainIff(after, id);
    AbortLeaves(s, t);
  }

  lemma AbortLeaves(s: State, t: nat)
    requires Inv(s) && t in s.tasks
    ensures AtWork(Apply(s, Abort(t)), s.tasks[t].id) <==> s.tasks[t].phase.Writing? || OthersAtWork(s, t)
  {
    hide LogOk, ReplaysOk;
    var id, after := s.tasks[t].id, Apply(s, Abort(t));
    assert TaskOk(s, s.tasks[t]);
    if s.tasks[t].phase.Writing? {
      assert t in after.detached && after.detached[t].runId == id;
    }
    if other :| other in s.tasks && other != t && s.tasks[other].id == id {
      assert other in after.tasks && after.tasks[other].id == id;
    }
    if other :| other in s.detached && s.detached[other].runId == id {
      assert after.detached[if other == t && s.tasks[t].phase.Writing? then t else other].runId == id;
    }
  }

  // ---- What a collection can lose ----

  // A pending replay is going to write the intent anew, without an outcome.
  predicate Reopenable(s: State, id: RunId) {
    exists i :: 0 <= i < |s.replays| && s.replays[i].runId == id && s.replays[i].replayCount < REPLAY_LIMIT
  }

  predicate StaysClosed(s: State, id: RunId) {
    id in s.persisted && !Open(s, id) && !Reopenable(s, id)
  }

  lemma TailNotReopenable(s: State, after: State, id: RunId)
    requires s.replays != [] && after.replays == s.replays[1..] && !Reopenable(s, id)
    ensures !Reopenable(after, id)
  {
    forall i | 0 <= i < |after.replays| ensures after.replays[i] == s.replays[i + 1] {
    }
  }

  lemma ListNotReopenable(s: State, list: seq<Intent>, id: RunId)
    requires IsReplayList(s.store, list) && !Open(s, id)
    ensures !Reopenable(s.(listed := true, replays := list, replay := Idle), id)
  {
  }

  lemma NotReopened(s: State, e: Event, id: RunId)
    requires Inv(s) && StaysClosed(s, id) && Enabled(s, e) && !e.DeleteVictims? && !e.Crash?
    ensures !Reopenable(Apply(s, e), id)
  {
    hide TaskStep, LogOk, TasksOk, ReplaysOk, IsReplayList, Victims, Inserted, Deleted;
    var after := Apply(s, e);
    if e.Boot? {
      ListNotReopenable(s, e.list, id);
    } else if after.replays != s.replays {
      TailNotReopenable(s, after, id);
    }
  }

  lemma StaysNotOpen(s: State, e: Event, id: RunId)
    requires Inv(s) && StaysClosed(s, id) && Enabled(s, e) && !e.DeleteVictims? && !e.Crash?
    ensures !Open(Apply(s, e), id)
  {
    hide LogOk, IsReplayList, Victims, Deleted;
    if e.Commit? {
      assert TaskOk(s, s.tasks[e.task]);
    } else if e.CommitDetached? {
      assert WriteOk(s, s.detached[e.task]);
    }
  }

  lemma StaysClosedStep(s: State, e: Event, id: RunId)
    requires Inv(s) && StaysClosed(s, id) && Enabled(s, e) && !e.DeleteVictims? && !e.Crash?
    ensures StaysClosed(Apply(s, e), id)
  {
    hide Inv, IsReplayList, Victims, Inserted, Deleted, Open, Reopenable;
    NotReopened(s, e, id);
    StaysNotOpen(s, e, id);
  }

  // Between the two passes of a collection there is no other pass and no crash.
  predicate Between(run: seq<Event>) {
    forall e :: e in run ==> !e.CollectVictims? && !e.DeleteVictims? && !e.Crash?
  }

  lemma {:induction false} StaysClosedRun(s: State, run: seq<Event>, id: RunId)
    requires Inv(s) && StaysClosed(s, id) && IsRun(s, run) && Between(run)
    ensures !Open(After(s, run), id)
    decreases |run|
  {
    if run != [] {
      StaysClosedStep(s, run[0], id);
      StepKeeps(s, run[0]);
      StaysClosedRun(Apply(s, run[0]), run[1..], id);
    }
  }

  lemma VictimsStep(s: State, e: Event)
    requires Enabled(s, e) && !e.CollectVictims? && !e.DeleteVictims? && !e.Crash?
    ensures Apply(s, e).victims == s.victims
  {
    hide TaskStep, ReplayStep, IsReplayList;
  }

  lemma {:induction false} VictimsStay(s: State, run: seq<Event>)
    requires IsRun(s, run) && Between(run)
    ensures After(s, run).victims == s.victims
    decreases |run|
  {
    hide Enabled, Apply;
    if run != [] {
      VictimsStep(s, run[0]);
      VictimsStay(Apply(s, run[0]), run[1..]);
    }
  }

  // A replay below the limit opens its intent: at once, or once the boot loop gets to it.
  lemma Reopens(s: State, id: RunId) returns (run: seq<Event>)
    requires Inv(s) && Reopenable(s, id)
    ensures IsRun(s, run) && Between(run)
    ensures Open(After(s, run), id) && After(s, run).victims == s.victims
  {
    hide Inv, Enabled, Apply, Open;
    var i :| 0 <= i < |s.replays| && s.replays[i].runId == id && s.replays[i].replayCount < REPLAY_LIMIT;
    var first := BringToHead(s, i);
    var at := After(s, first);
    assert at.replays[0] == s.replays[i];
    ReopensHead(at);
    var e := if at.replay.Counted? then SpawnReplay(0) else CountReplay;
    RunGrows(s, first, e);
    run := first + [e];
  }

  lemma ReopensHead(s: State)
    requires Inv(s) && s.replays != [] && s.replays[0].replayCount < REPLAY_LIMIT
    ensures var e := if s.replay.Counted? then SpawnReplay(0) else CountReplay;
      Enabled(s, e) && Open(Apply(s, e), s.replays[0].runId) && Apply(s, e).victims == s.victims
  {
    hide LogOk, TasksOk, IsReplayList;
    assert Faithful(s, s.replays[0]) && s.replays[0].terminal.None?;
  }

  // No deletion after the collecting pass takes an intent without an outcome.
  ghost predicate CollectionKeepsOpen(s: State) {
    forall run :: IsRun(s, run) && Between(run) && Enabled(After(s, run), DeleteVictims) ==>
      forall id :: Open(After(s, run), id) ==> Open(Apply(After(s, run), DeleteVictims), id)
  }

  lemma DeletedIff(s: State, id: RunId)
    requires Enabled(s, DeleteVictims) && Open(s, id)
    ensures Open(Apply(s, DeleteVictims), id) <==> !Doomed(s, id)
  {
  }

  lemma VictimIsClosed(s: State, cutoff: Micros, id: RunId)
    requires Inv(s) && s.victims == {} && Doomed(Apply(s, CollectVictims(cutoff)), id)
    ensures id in s.persisted && !Open(s, id) && id in s.store.intents && IsVictim(s.store.intents[id], cutoff)
  {
    StoredIsFaithful(s, id);
  }

  /**
    A collection is two transactions.  With anything but a crash between them it never deletes an
    intent without an outcome exactly when no victim is waiting for a replay below the limit,
    which a run spawned before the replay list was drawn up can be.
   */
  lemma CollectionKeepsOpenIff(s: State, cutoff: Micros)
    requires Inv(s) && s.victims == {}
    ensures CollectionKeepsOpen(Apply(s, CollectVictims(cutoff)))
      <==> forall id :: id in s.store.intents && IsVictim(s.store.intents[id], cutoff) ==> !Reopenable(s, id)
  {
    hide Inv, IsReplayList;
    var s1 := Apply(s, CollectVictims(cutoff));
    StepKeeps(s, CollectVictims(cutoff));
    if forall id :: id in s.store.intents && IsVictim(s.store.intents[id], cutoff) ==> !Reopenable(s, id) {
      forall run, id | IsRun(s1, run) && Between(run) && Enabled(After(s1, run), DeleteVictims) && Open(After(s1, run), id)
        ensures Open(Apply(After(s1, run), DeleteVictims), id)
      {
        SparesOpen(s, cutoff, run, id);
      }
    } else {
      var id :| id in s.store.intents && IsVictim(s.store.intents[id], cutoff) && Reopenable(s, id);
      LosesReopened(s, cutoff, id);
    }
  }

  lemma SparesOpen(s: State, cutoff: Micros, run: seq<Event>, id: RunId)
    requires Inv(s) && s.victims == {}
    requires forall id :: id in s.store.intents && IsVictim(s.store.intents[id], cutoff) ==> !Reopenable(s, id)
    requires var s1 := Apply(s, CollectVictims(cutoff));
      IsRun(s1, run) && Between(run) && Enabled(After(s1, run), DeleteVictims) && Open(After(s1, run), id)
    ensures Open(Apply(After(Apply(s, CollectVictims(cutoff)), run), DeleteVictims), id)
  {
    hide Inv, IsReplayList, IsVictim;
    var s1 := Apply(s, CollectVictims(cutoff));
    StepKeeps(s, CollectVictims(cutoff));
    if Doomed(After(s1, run), id) {
      VictimsStay(s1, run);
      VictimIsClosed(s, cutoff, id);
      StaysClosedRun(s1, run, id);
    }
    DeletedIff(After(s1, run), id);
  }

  lemma LosesReopened(s: State, cutoff: Micros, id: RunId)
    requires Inv(s) && s.victims == {} && id in s.store.intents && IsVictim(s.store.intents[id], cutoff) && Reopenable(s, id)
    ensures !CollectionKeepsOpen(Apply(s, CollectVictims(cutoff)))
  {
    hide Inv, IsReplayList;
    var s1 := Apply(s, CollectVictims(cutoff));
    StepKeeps(s, CollectVictims(cutoff));
    assert (s.store.intents[id].spec.namespace, id) in s1.victims;
    assert Reopenable(s1, id);
    var run := Reopens(s1, id);
    DeletedIff(After(s1, run), id);
  }

  // ---- The replay limit is not a bound on restarts ----

  ghost predicate Crashing(s: State, id: RunId, spec: Spec, count: nat) {
    && s.store.intents == map[id := NewIntent(id, spec, 0)]
    && (exists t :: t in s.tasks && s.tasks[t] == Task(id, Running))
    && s.limited == {} && s.returned == {} && id in s.persisted && s.starts == map[id := count]
  }

  // The process has restarted and listed the run, and perhaps counted its replay.
  ghost predicate Restarted(s: State, id: RunId, spec: Spec, count: nat, counted: bool) {
    && s.replays == [NewIntent(id, spec, 0)] && s.replay == (if counted then Counted else Idle)
    && s.store.intents == map[id := NewIntent(id, spec, 0).(replayCount := if counted then 1 else 0)]
    && s.limited == {} && s.returned == {} && id in s.persisted && s.starts == map[id := count]
  }

  lemma Reboot(s: State, id: RunId, spec: Spec, count: nat)
    requires Crashing(s, id, spec, count)
    ensures var list := [NewIntent(id, spec, 0)];
      Enabled(Apply(s, Crash), Boot(list)) && Restarted(Apply(Apply(s, Crash), Boot(list)), id, spec, count, false)
  {
    var s1, list := Apply(s, Crash), [NewIntent(id, spec, 0)];
    assert list[0].runId == id;
    assert IsReplayList(s1.store, list);
  }

  lemma Recount(s: State, id: RunId, spec: Spec, count: nat)
    requires Restarted(s, id, spec, count, false)
    ensures Enabled(s, CountReplay) && Restarted(Apply(s, CountReplay), id, spec, count, true)
    ensures Apply(s, CountReplay).next == s.next
  {
    hide IsReplayList;
  }

  lemma Respawn(s: State, id: RunId, spec: Spec, count: nat)
    requires Restarted(s, id, spec, count, true)
    ensures Enabled(s, SpawnReplay(0))
    ensures var after := Apply(s, SpawnReplay(0));
      Enabled(after, Start(s.next)) && Crashing(Apply(after, Start(s.next)), id, spec, count + 1)
  {
    hide IsReplayList;
    var after := Apply(s, SpawnReplay(0));
    assert after.tasks[s.next] == Task(id, Persisted);
    var last := Apply(after, Start(s.next));
    assert last.tasks[s.next] == Task(id, Running);
  }

  lemma OneMoreRestart(s0: State, before: seq<Event>, id: RunId, spec: Spec, count: nat) returns (run: seq<Event>)
    requires IsRun(s0, before) && Crashing(After(s0, before), id, spec, count)
    ensures IsRun(s0, run) && Crashing(After(s0, run), id, spec, count + 1)
  {
    hide Enabled, Apply, Crashing, Restarted;
    var s, list := After(s0, before), [NewIntent(id, spec, 0)];
    CrashIsEnabled(s);
    RunGrows(s0, before, Crash);
    Reboot(s, id, spec, count);
    run := before + [Crash];
    RunGrows(s0, run, Boot(list));
    run := run + [Boot(list)];
    Recount(After(s0, run), id, spec, count);
    RunGrows(s0, run, CountReplay);
    run := run + [CountReplay];
    var s2 := After(s0, run);
    Respawn(s2, id, spec, count);
    RunGrows(s0, run, SpawnReplay(0));
    run := run + [SpawnReplay(0)];
    RunGrows(s0, run, Start(s2.next));
    run := run + [Start(s2.next)];
  }

  lemma CrashIsEnabled(s: State)
    ensures Enabled(s, Crash)
  {
  }

  lemma FirstStart(id: RunId, spec: Spec)
    ensures Enabled(FIRST, Spawn(id, spec, 0))
    ensures var s := Apply(FIRST, Spawn(id, spec, 0)); Enabled(s, Start(0)) && Crashing(Apply(s, Start(0)), id, spec, 1)
  {
    var s := Apply(Apply(FIRST, Spawn(id, spec, 0)), Start(0));
    assert s.tasks[0] == Task(id, Running);
  }

  /**
    The limit does not bound a crash loop: respawning writes the intent anew with count 0, so a
    run whose process keeps dying is started again any number of times and never given up on.
   */
  lemma {:induction false} RestartsAreUnbounded(id: RunId, spec: Spec, n: nat) returns (run: seq<Event>)
    ensures IsRun(FIRST, run)
    ensures var s := After(FIRST, run); id in s.starts && s.starts[id] == n + 1 && id !in s.limited && Open(s, id)
    ensures Crashing(After(FIRST, run), id, spec, n + 1)
  {
    if n == 0 {
      FirstStart(id, spec);
      OneStep(FIRST, Spawn(id, spec, 0));
      RunGrows(FIRST, [Spawn(id, spec, 0)], Start(0));
      run := [Spawn(id, spec, 0)] + [Start(0)];
    } else {
      hide Enabled, Apply;
      var before := RestartsAreUnbounded(id, spec, n - 1);
      run := OneMoreRestart(FIRST, before, id, spec, n);
    }
  }

  // ---- What the limit does mean ----

  // The count of an open intent is the number of replays since the run was last put to work.
  ghost predicate StoredCounts(s: State) {
    && (forall id :: Open(s, id) ==> id in s.stalls && s.store.intents[id].replayCount == s.stalls[id])
    && (forall id :: id in s.stalls ==> s.stalls[id] <= REPLAY_LIMIT)
  }

  // So are the counts in the replay list, but for the head once it was counted.
  ghost predicate ListedCounts(s: State) {
    forall i :: (if s.replay.Counted? then 1 else 0) <= i < |s.replays| ==>
      s.replays[i].runId in s.stalls && s.replays[i].replayCount == s.stalls[s.replays[i].runId]
  }

  lemma TaskCounts(s: State, e: Event)
    requires Inv(s) && StoredCounts(s) && Enabled(s, e) && OfTask(e)
    ensures StoredCounts(Apply(s, e))
  {
    hide LogOk, ReplaysOk, IsReplayList;
    var after := Apply(s, e);
    assert e.Commit? ==> TaskOk(s, s.tasks[e.task]);
    assert e.CommitDetached? ==> WriteOk(s, s.detached[e.task]);
    forall id | Open(after, id) ensures Open(s, id) && after.store.intents[id] == s.store.intents[id] {
    }
  }

  lemma ReplayCounts(s: State, e: Event)
    requires Inv(s) && StoredCounts(s) && ListedCounts(s) && Enabled(s, e) && OfReplay(e)
    ensures StoredCounts(Apply(s, e))
  {
    hide LogOk, TasksOk, IsReplayList;
    assert Faithful(s, s.replays[0]);
  }

  lemma StoredCountsStep(s: State, e: Event)
    requires Inv(s) && StoredCounts(s) && ListedCounts(s) && Enabled(s, e)
    ensures StoredCounts(Apply(s, e))
  {
    hide LogOk, TasksOk, ReplaysOk, TaskStep, ReplayStep, IsReplayList;
    if OfTask(e) {
      TaskCounts(s, e);
    } else if OfReplay(e) {
      ReplayCounts(s, e);
    }
  }

  lemma TailCounts(s: State, after: State)
    requires ReplaysOk(s) && ListedCounts(s) && s.replays != [] && after.replays == s.replays[1..] && after.replay.Idle?
    requires forall id :: id in s.stalls && id != s.replays[0].runId ==> id in after.stalls && after.stalls[id] == s.stalls[id]
    ensures ListedCounts(after)
  {
    forall i | 0 <= i < |after.replays|
      ensures after.replays[i].runId in after.stalls && after.replays[i].replayCount == after.stalls[after.replays[i].runId]
    {
      assert after.replays[i] == s.replays[i + 1] && s.replays[0].runId != s.replays[i + 1].runId;
    }
  }

  lemma ReplayListedCounts(s: State, e: Event)
    requires Inv(s) && ListedCounts(s) && Enabled(s, e) && OfReplay(e)
    ensures ListedCounts(Apply(s, e))
  {
    hide LogOk, TasksOk, IsReplayList;
    var after := Apply(s, e);
    match e {
      case CountReplay =>
        forall i | 0 < i < |s.replays| ensures s.replays[i].runId != s.replays[0].runId {
        }
      case ReadLimited =>
        if after.replays != s.replays {
          TailCounts(s, after);
        }
      case SpawnReplay(_) => TailCounts(s, after);
      case MissReplay => TailCounts(s, after);
      case WriteLimited => TailCounts(s, after);
    }
  }

  lemma SpawnListedCounts(s: State, id: RunId, spec: Spec, now: Micros)
    requires Inv(s) && ListedCounts(s) && Enabled(s, Spawn(id, spec, now))
    ensures ListedCounts(Apply(s, Spawn(id, spec, now)))
  {
    hide LogOk, TasksOk;
    forall i | 0 <= i < |s.replays| ensures s.replays[i].runId != id {
      assert Faithful(s, s.replays[i]);
    }
  }

  lemma ListedCountsStep(s: State, e: Event)
    requires Inv(s) && StoredCounts(s) && ListedCounts(s) && Enabled(s, e)
    ensures ListedCounts(Apply(s, e))
  {
    hide LogOk, TasksOk, ReplaysOk, TaskStep, ReplayStep;
    if OfReplay(e) {
      ReplayListedCounts(s, e);
    } else if e.Spawn? {
      SpawnListedCounts(s, e.id, e.spec, e.now);
    } else if e.Boot? {
      assert forall i :: 0 <= i < |e.list| ==> Open(s, e.list[i].runId);
    }
  }

  lemma {:induction false} RunKeepsCounts(s: State, run: seq<Event>)
    requires Inv(s) && StoredCounts(s) && ListedCounts(s) && IsRun(s, run)
    ensures StoredCounts(After(s, run)) && ListedCounts(After(s, run))
    decreases |run|
  {
    hide Inv, Enabled, Apply, StoredCounts, ListedCounts;
    if run != [] {
      StepKeeps(s, run[0]);
      StoredCountsStep(s, run[0]);
      ListedCountsStep(s, run[0]);
      RunKeepsCounts(Apply(s, run[0]), run[1..]);
    }
  }

  /**
    When the limit does give a run up: exactly at its eleventh replay in a row since it was last
    put to work, that is after ten replays that died or found no workflow before respawning it.
   */
  lemma LimitIsTenStalls(run: seq<Event>)
    requires IsRun(FIRST, run)
    ensures var s := After(FIRST, run);
      s.replays != [] && s.replay.Idle? ==>
        s.replays[0].runId in s.stalls
        && (Enabled(s, ReadLimited) <==> s.stalls[s.replays[0].runId] == 10)
        && (Enabled(s, CountReplay) <==> s.stalls[s.replays[0].runId] < 10)
  {
    FirstIsOk();
    RunKeeps(FIRST, run);
    RunKeepsCounts(FIRST, run);
    var s := After(FIRST, run);
    if s.replays != [] && s.replay.Idle? {
      LimitReading(s);
    }
  }

  lemma LimitReading(s: State)
    requires StoredCounts(s) && ListedCounts(s) && s.replays != [] && s.replay.Idle?
    ensures s.replays[0].runId in s.stalls
    ensures Enabled(s, ReadLimited) <==> s.stalls[s.replays[0].runId] == 10
    ensures Enabled(s, CountReplay) <==> s.stalls[s.replays[0].runId] < 10
  {
    assert s.stalls[s.replays[0].runId] <= REPLAY_LIMIT;
  }
}
