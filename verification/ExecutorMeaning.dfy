/**
  What a run of the executor means, said on its events: what counts as completed, when a step
  may have been started, how many tasks there can be at once, how a run ends, and exactly which
  steps a run that leaves has started.
 */
module ExecutorMeaning {
  import opened Wrappers
  import opened Graphs
  import opened Workflows
  import opened Compiler
  import opened Routing
  import opened TaskLoop
  import opened Executor
  import opened ExecutorSafety

  // ---- Runs, event by event ----

  lemma {:induction false} LastStep(cfg: EngineConfig, w: Workflow, s: State, events: seq<Event>)
    requires events != [] && IsRun(cfg, w, s, events)
    ensures var init, e := events[..|events| - 1], events[|events| - 1];
      && IsRun(cfg, w, s, init) && Enabled(cfg, w, After(cfg, w, s, init), e)
      && After(cfg, w, s, events) == Apply(cfg, w, After(cfg, w, s, init), e)
    decreases |events|
  {
    hide Enabled, Apply;
    if |events| == 1 {
      assert events[..0] == [] && events[1..] == [];
    } else {
      LastStep(cfg, w, Apply(cfg, w, s, events[0]), events[1..]);
      assert events[1..][..|events| - 2] == events[..|events| - 1][1..];
    }
  }

  lemma {:induction false} PrefixIsRun(cfg: EngineConfig, w: Workflow, s: State, events: seq<Event>, i: nat)
    requires i <= |events| && IsRun(cfg, w, s, events)
    ensures IsRun(cfg, w, s, events[..i])
    ensures i < |events| ==> Enabled(cfg, w, After(cfg, w, s, events[..i]), events[i])
    decreases |events|
  {
    hide Enabled, Apply, After;
    if i == |events| {
      assert events[..i] == events;
    } else {
      LastStep(cfg, w, s, events);
      var init := events[..|events| - 1];
      if i < |events| - 1 {
        PrefixIsRun(cfg, w, s, init, i);
      }
      assert init[..i] == events[..i];
    }
  }

  // The state before the `i`-th event.
  function StateAt(cfg: EngineConfig, w: Workflow, s: State, events: seq<Event>, i: nat): State
    requires i <= |events| && IsRun(cfg, w, s, events)
  {
    PrefixIsRun(cfg, w, s, events, i);
    After(cfg, w, s, events[..i])
  }

  // The `i`-th event is a turn: this step executes, in this iteration, with this outcome.
  ghost predicate TurnAt(
      cfg: EngineConfig, w: Workflow, s: State, events: seq<Event>, i: nat, step: Step, iteration: nat, outcome: Outcome)
    requires IsRun(cfg, w, s, events)
  {
    && i < |events| && events[i].Exec? && events[i].outcome == outcome
    && var before := StateAt(cfg, w, s, events, i);
       && events[i].t < |before.tasks| && before.tasks[events[i].t].Running?
       && before.tasks[events[i].t].step == step && before.tasks[events[i].t].iteration == iteration
  }

  lemma TurnInPrefix(
      cfg: EngineConfig, w: Workflow, s: State, events: seq<Event>, i: nat, step: Step, iteration: nat, outcome: Outcome)
    requires events != [] && IsRun(cfg, w, s, events) && i < |events| - 1
    ensures IsRun(cfg, w, s, events[..|events| - 1])
    ensures TurnAt(cfg, w, s, events, i, step, iteration, outcome)
       <==> TurnAt(cfg, w, s, events[..|events| - 1], i, step, iteration, outcome)
  {
    hide IsRun, After;
    LastStep(cfg, w, s, events);
    assert events[..|events| - 1][..i] == events[..i];
  }

  lemma LastTurn(
      cfg: EngineConfig, w: Workflow, s: State, events: seq<Event>, step: Step, iteration: nat, outcome: Outcome)
    requires events != [] && IsRun(cfg, w, s, events)
    ensures IsRun(cfg, w, s, events[..|events| - 1])
    ensures var e, before := events[|events| - 1], After(cfg, w, s, events[..|events| - 1]);
      TurnAt(cfg, w, s, events, |events| - 1, step, iteration, outcome)
      <==> e.Exec? && e.outcome == outcome && e.t < |before.tasks| && before.tasks[e.t].Running?
           && before.tasks[e.t].step == step && before.tasks[e.t].iteration == iteration
  {
    hide IsRun, After;
    LastStep(cfg, w, s, events);
  }

  // ---- What is completed ----

  /**
    What a turn records: the loop variable, and the step's own output or error; an error jump
    records nothing of the step, a cancelled turn nothing at all.
   */
  predicate Records(step: Step, outcome: Outcome, key: string) {
    && !outcome.Cancelled?
    && (|| (key == step.id && !(outcome.ToolErr? && step.onError.Goto?))
        || (step.repeat_.Some? && step.repeat_.value.asVar == Some(key)))
  }

  ghost predicate RecordedIn(cfg: EngineConfig, w: Workflow, s: State, events: seq<Event>, key: string)
    requires IsRun(cfg, w, s, events)
  {
    exists i, step, iteration, outcome :: TurnAt(cfg, w, s, events, i, step, iteration, outcome) && Records(step, outcome, key)
  }

  lemma WritesAre(step: Step, outcome: Outcome, key: string)
    ensures key in Writes(step, outcome) <==> Records(step, outcome, key)
  {
  }

  lemma CompletedStep(cfg: EngineConfig, w: Workflow, s: State, e: Event, key: string)
    requires Enabled(cfg, w, s, e)
    ensures key in Apply(cfg, w, s, e).completed
       <==> key in s.completed || (e.Exec? && Records(s.tasks[e.t].step, e.outcome, key))
  {
    if e.Exec? {
      WritesAre(s.tasks[e.t].step, e.outcome, key);
    }
  }

  lemma RecordedGrows(cfg: EngineConfig, w: Workflow, s: State, events: seq<Event>, key: string)
    requires events != [] && IsRun(cfg, w, s, events) && IsRun(cfg, w, s, events[..|events| - 1])
    ensures var e, init := events[|events| - 1], events[..|events| - 1];
      && Enabled(cfg, w, After(cfg, w, s, init), e)
      && (RecordedIn(cfg, w, s, events, key)
          <==> RecordedIn(cfg, w, s, init, key)
               || (e.Exec? && Records(After(cfg, w, s, init).tasks[e.t].step, e.outcome, key)))
  {
    hide IsRun, After, TurnAt, Records;
    LastStep(cfg, w, s, events);
    var n, e, init := |events| - 1, events[|events| - 1], events[..|events| - 1];
    if i: nat, step: Step, iteration: nat, outcome: Outcome :| TurnAt(cfg, w, s, events, i, step, iteration, outcome) && Records(step, outcome, key) {
      TurnIndex(cfg, w, s, events, i, step, iteration, outcome);
      if i < n {
        TurnInPrefix(cfg, w, s, events, i, step, iteration, outcome);
      } else {
        LastTurn(cfg, w, s, events, step, iteration, outcome);
      }
    }
    if i: nat, step: Step, iteration: nat, outcome: Outcome :| TurnAt(cfg, w, s, init, i, step, iteration, outcome) && Records(step, outcome, key) {
      TurnIndex(cfg, w, s, init, i, step, iteration, outcome);
      TurnInPrefix(cfg, w, s, events, i, step, iteration, outcome);
    }
    if e.Exec? && Records(After(cfg, w, s, init).tasks[e.t].step, e.outcome, key) {
      var task := After(cfg, w, s, init).tasks[e.t];
      LastTurn(cfg, w, s, events, task.step, task.iteration, e.outcome);
    }
  }

  lemma TurnIndex(
      cfg: EngineConfig, w: Workflow, s: State, events: seq<Event>, i: nat, step: Step, iteration: nat, outcome: Outcome)
    requires IsRun(cfg, w, s, events) && TurnAt(cfg, w, s, events, i, step, iteration, outcome)
    ensures i < |events| && events[i].Exec? && events[i].outcome == outcome
  {
  }

  /** After any run, what counts as completed is what was there at first and what a turn recorded. */
  lemma {:induction false} CompletedIff(cfg: EngineConfig, w: Workflow, s: State, events: seq<Event>, key: string)
    requires IsRun(cfg, w, s, events)
    ensures key in After(cfg, w, s, events).completed <==> key in s.completed || RecordedIn(cfg, w, s, events, key)
    decreases |events|
  {
    hide IsRun, Apply, Enabled, RecordedIn, Records;
    if events == [] {
      NothingRecorded(cfg, w, s, key);
    } else {
      LastStep(cfg, w, s, events);
      var init, e := events[..|events| - 1], events[|events| - 1];
      CompletedIff(cfg, w, s, init, key);
      RecordedGrows(cfg, w, s, events, key);
      hide After;
      CompletedStep(cfg, w, After(cfg, w, s, init), e, key);
    }
  }

  /** So from the start: the workflow's input, and what some turn recorded. */
  lemma CompletedFromStart(cfg: EngineConfig, w: Workflow, events: seq<Event>, key: string)
    requires HasStep(w, w.entry) && IsRun(cfg, w, Init(w), events)
    ensures key in After(cfg, w, Init(w), events).completed <==> key == "input" || RecordedIn(cfg, w, Init(w), events, key)
  {
    hide IsRun, RecordedIn, After;
    CompletedIff(cfg, w, Init(w), events, key);
  }

  lemma NothingRecorded(cfg: EngineConfig, w: Workflow, s: State, key: string)
    ensures IsRun(cfg, w, s, []) && !RecordedIn(cfg, w, s, [], key)
  {
  }

  // ---- When a step may start ----

  // Only a scan or a request starts a step: a known, reachable one whose policy is met, while
  // there is room.
  lemma StartNeeds(cfg: EngineConfig, w: Workflow, s: State, e: Event, id: string)
    requires Enabled(cfg, w, s, e) && id in Apply(cfg, w, s, e).started && id !in s.started
    ensures HasStep(w, id) && PolicyMet(GetStep(w.steps, id).value, s.completed)
    ensures Active(s) < cfg.maxConcurrentNodes
    ensures e == Scan(id) || (e == Receive && s.channel[0] == SpawnNext(id))
  {
    hide Active, PolicyMet, MayRun;
    var target := if e.Scan? then e.id else id;
    if HasStep(w, target) {
      MayRunIff(GetStep(w.steps, target).value, s.completed);
    }
    if e.Receive? && s.channel[0].SpawnNext? && HasStep(w, s.channel[0].id) {
      MayRunIff(GetStep(w.steps, s.channel[0].id).value, s.completed);
    }
  }

  /**
    A step that joins on all its dependencies is started only after each of them was recorded by
    a turn of the same run; the workflow's own input counts as there.
   */
  lemma StartsAfterDependencies(cfg: EngineConfig, w: Workflow, events: seq<Event>, e: Event, id: string, d: string)
    requires HasStep(w, w.entry) && IsRun(cfg, w, Init(w), events)
    requires Enabled(cfg, w, After(cfg, w, Init(w), events), e)
    requires id in Apply(cfg, w, After(cfg, w, Init(w), events), e).started && id !in After(cfg, w, Init(w), events).started
    ensures HasStep(w, id)
    ensures GetStep(w.steps, id).value.join.All? && d in GetStep(w.steps, id).value.dependsOn ==>
              d == "input" || RecordedIn(cfg, w, Init(w), events, d)
  {
    StartNeeds(cfg, w, After(cfg, w, Init(w), events), e, id);
    CompletedIff(cfg, w, Init(w), events, d);
  }

  // ---- How many at once ----

  function Unjoined(tasks: seq<Task>): set<nat> {
    set t: nat | t < |tasks| && !tasks[t].Joined?
  }

  lemma UnjoinedMore(tasks: seq<Task>, t: Task)
    ensures |Unjoined(tasks + [t])| == |Unjoined(tasks)| + if t.Joined? then 0 else 1
  {
    assert Unjoined(tasks + [t]) == Unjoined(tasks) + if t.Joined? then {} else {|tasks|};
  }

  lemma {:induction false} ActiveCounts(tasks: seq<Task>)
    ensures Total(ActiveWeight, tasks) == |Unjoined(tasks)|
    decreases |tasks|
  {
    if tasks == [] {
      assert Unjoined(tasks) == {};
    } else {
      var init, n := tasks[..|tasks| - 1], |tasks| - 1;
      ActiveCounts(init);
      UnjoinedMore(init, tasks[n]);
      assert init + [tasks[n]] == tasks;
      TotalAppend(ActiveWeight, init, tasks[n]);
    }
  }

  predicate Within(cfg: EngineConfig, s: State) {
    Active(s) <= if cfg.maxConcurrentNodes > 1 then cfg.maxConcurrentNodes else 1
  }

  lemma SpawnWithin(cfg: EngineConfig, w: Workflow, s: State, id: string)
    requires Active(s) < cfg.maxConcurrentNodes
    ensures Within(cfg, TrySpawn(w, s, id))
  {
    hide MayRun;
    var step := GetStep(w.steps, id);
    if step.Some? {
      TotalAppend(ActiveWeight, s.tasks, Running(step.value, 0, 0));
    }
  }

  lemma StepStaysWithin(cfg: EngineConfig, w: Workflow, s: State, e: Event)
    requires Within(cfg, s) && Enabled(cfg, w, s, e)
    ensures Within(cfg, Apply(cfg, w, s, e))
  {
    hide MayRun, Advance;
    match e {
      case Exec(t, outcome) => TotalUpdate(ActiveWeight, s.tasks, t, AfterTurn(w, s.tasks[t], outcome));
      case Send(t) => TotalUpdate(ActiveWeight, s.tasks, t, ApplySend(s, t).tasks[t]);
      case Join(t) => TotalUpdate(ActiveWeight, s.tasks, t, Joined(s.tasks[t].announced));
      case Receive =>
        if s.channel[0].SpawnNext? && Active(s) < cfg.maxConcurrentNodes {
          SpawnWithin(cfg, w, s.(channel := s.channel[1..], reachable := s.reachable + {s.channel[0].id}), s.channel[0].id);
        }
      case Scan(id) =>
        if Active(s) < cfg.maxConcurrentNodes {
          SpawnWithin(cfg, w, s, id);
        }
      case Cancel =>
    }
  }

  lemma {:induction false} RunStaysWithin(cfg: EngineConfig, w: Workflow, s: State, events: seq<Event>)
    requires Within(cfg, s) && IsRun(cfg, w, s, events)
    ensures Within(cfg, After(cfg, w, s, events))
    decreases |events|
  {
    hide Within, Enabled, Apply;
    if events != [] {
      StepStaysWithin(cfg, w, s, events[0]);
      RunStaysWithin(cfg, w, Apply(cfg, w, s, events[0]), events[1..]);
    }
  }

  /** At no time are there more unjoined tasks than `max_concurrent_nodes`, the entry's aside. */
  lemma NeverTooMany(cfg: EngineConfig, w: Workflow, events: seq<Event>)
    requires HasStep(w, w.entry) && IsRun(cfg, w, Init(w), events)
    ensures |Unjoined(After(cfg, w, Init(w), events).tasks)| <= if cfg.maxConcurrentNodes > 1 then cfg.maxConcurrentNodes else 1
  {
    assert Init(w).tasks == [] + Init(w).tasks;
    TotalAppend(ActiveWeight, [], Running(GetStep(w.steps, w.entry).value, 0, 0));
    RunStaysWithin(cfg, w, Init(w), events);
    ActiveCounts(After(cfg, w, Init(w), events).tasks);
  }

  // ---- How a run ends ----

  // A turn that fails its task.
  ghost predicate FailsAt(cfg: EngineConfig, w: Workflow, s: State, events: seq<Event>, i: nat)
    requires IsRun(cfg, w, s, events)
  {
    exists step, iteration, outcome ::
      TurnAt(cfg, w, s, events, i, step, iteration, outcome) && Fails(w, step, iteration, outcome)
  }

  // Node executions: turns that were not cancelled.
  function Executions(events: seq<Event>): nat {
    if events == [] then 0
    else
      var last := events[|events| - 1];
      Executions(events[..|events| - 1]) + if last.Exec? && !last.outcome.Cancelled? then 1 else 0
  }

  function ExecutedWeight(t: Task): nat {
    if t.Joined? then 0 else t.executed
  }

  predicate IsBad(s: State, t: nat) {
    t < |s.tasks| && s.tasks[t].Sending? && !s.tasks[t].ok
  }

  // While it goes on: executions are counted with their tasks or in the budget, and the failed
  // tasks are those with a failing turn.
  ghost predicate Accounts(cfg: EngineConfig, w: Workflow, s: State, events: seq<Event>)
    requires IsRun(cfg, w, s, events)
  {
    var after := After(cfg, w, s, events);
    after.phase.Aborted? || (
      && after.stepsCount + Total(ExecutedWeight, after.tasks) == Executions(events)
      && after.stepsCount <= cfg.maxSteps
      && Cancel !in events
      && (forall t :: IsBad(after, t) ==> exists i :: FailsAt(cfg, w, s, events, i))
      && (forall i :: FailsAt(cfg, w, s, events, i) ==> exists t :: IsBad(after, t)))
  }

  lemma FailsGrows(cfg: EngineConfig, w: Workflow, s: State, events: seq<Event>, i: nat)
    requires events != [] && IsRun(cfg, w, s, events) && IsRun(cfg, w, s, events[..|events| - 1])
    ensures var n, e, init := |events| - 1, events[|events| - 1], events[..|events| - 1];
      && Enabled(cfg, w, After(cfg, w, s, init), e)
      && (i < n ==> (FailsAt(cfg, w, s, events, i) <==> FailsAt(cfg, w, s, init, i)))
      && (i == n ==> (FailsAt(cfg, w, s, events, i)
                      <==> e.Exec? && var task := After(cfg, w, s, init).tasks[e.t]; Fails(w, task.step, task.iteration, e.outcome)))
      && (i > n ==> !FailsAt(cfg, w, s, events, i))
      && (i >= n ==> !FailsAt(cfg, w, s, init, i))
  {
    hide IsRun, After, TurnAt, Fails;
    LastStep(cfg, w, s, events);
    var n, e, init := |events| - 1, events[|events| - 1], events[..|events| - 1];
    forall step, iteration, outcome
      ensures TurnAt(cfg, w, s, events, i, step, iteration, outcome) ==> i <= n
      ensures TurnAt(cfg, w, s, init, i, step, iteration, outcome) ==> i < n
      ensures i < n ==> (TurnAt(cfg, w, s, events, i, step, iteration, outcome) <==> TurnAt(cfg, w, s, init, i, step, iteration, outcome))
    {
      if TurnAt(cfg, w, s, events, i, step, iteration, outcome) {
        TurnIndex(cfg, w, s, events, i, step, iteration, outcome);
      }
      if TurnAt(cfg, w, s, init, i, step, iteration, outcome) {
        TurnIndex(cfg, w, s, init, i, step, iteration, outcome);
      }
      if i < n {
        TurnInPrefix(cfg, w, s, events, i, step, iteration, outcome);
      }
    }
    if i == n {
      LastFails(cfg, w, s, events);
    }
  }

  lemma LastFails(cfg: EngineConfig, w: Workflow, s: State, events: seq<Event>)
    requires events != [] && IsRun(cfg, w, s, events) && IsRun(cfg, w, s, events[..|events| - 1])
    requires Enabled(cfg, w, After(cfg, w, s, events[..|events| - 1]), events[|events| - 1])
    ensures var e, before := events[|events| - 1], After(cfg, w, s, events[..|events| - 1]);
      FailsAt(cfg, w, s, events, |events| - 1)
      <==> e.Exec? && var task := before.tasks[e.t]; Fails(w, task.step, task.iteration, e.outcome)
  {
    hide IsRun, After, TurnAt, Fails;
    var n, e, before := |events| - 1, events[|events| - 1], After(cfg, w, s, events[..|events| - 1]);
    forall step, iteration, outcome
      ensures TurnAt(cfg, w, s, events, n, step, iteration, outcome)
         <==> e.Exec? && e.outcome == outcome && e.t < |before.tasks| && before.tasks[e.t].Running?
              && before.tasks[e.t].step == step && before.tasks[e.t].iteration == iteration
    {
      LastTurn(cfg, w, s, events, step, iteration, outcome);
    }
    if e.Exec? && Fails(w, before.tasks[e.t].step, before.tasks[e.t].iteration, e.outcome) {
      assert TurnAt(cfg, w, s, events, n, before.tasks[e.t].step, before.tasks[e.t].iteration, e.outcome);
    }
  }

  predicate BooksHold(before: State, after: State, executed: nat) {
    after.stepsCount + Total(ExecutedWeight, after.tasks) == before.stepsCount + Total(ExecutedWeight, before.tasks) + executed
  }

  lemma TaskAccounts(cfg: EngineConfig, w: Workflow, s: State, e: Event)
    requires Enabled(cfg, w, s, e) && s.stepsCount <= cfg.maxSteps && (e.Exec? || e.Send? || e.Join?)
    requires !Apply(cfg, w, s, e).phase.Aborted?
    ensures Apply(cfg, w, s, e).stepsCount <= cfg.maxSteps
    ensures BooksHold(s, Apply(cfg, w, s, e), if e.Exec? && !e.outcome.Cancelled? then 1 else 0)
  {
    hide MayRun, Advance, Total;
    match e {
      case Exec(t, outcome) => TotalUpdate(ExecutedWeight, s.tasks, t, AfterTurn(w, s.tasks[t], outcome));
      case Send(t) => TotalUpdate(ExecutedWeight, s.tasks, t, ApplySend(s, t).tasks[t]);
      case Join(t) => TotalUpdate(ExecutedWeight, s.tasks, t, Joined(s.tasks[t].announced));
    }
  }

  lemma StartAccounts(cfg: EngineConfig, w: Workflow, s: State, e: Event)
    requires Enabled(cfg, w, s, e) && (e.Receive? || e.Scan?)
    ensures Apply(cfg, w, s, e).stepsCount == s.stepsCount
    ensures BooksHold(s, Apply(cfg, w, s, e), 0)
  {
    hide MayRun, Advance, Total;
    match e {
      case Receive =>
        if s.channel[0].SpawnNext? && HasStep(w, s.channel[0].id) {
          TotalAppend(ExecutedWeight, s.tasks, Running(GetStep(w.steps, s.channel[0].id).value, 0, 0));
        }
      case Scan(id) =>
        if HasStep(w, id) {
          TotalAppend(ExecutedWeight, s.tasks, Running(GetStep(w.steps, id).value, 0, 0));
        }
    }
  }

  // What one event does to the books.
  lemma StepAccounts(cfg: EngineConfig, w: Workflow, s: State, e: Event)
    requires Enabled(cfg, w, s, e) && s.stepsCount <= cfg.maxSteps
    ensures !Apply(cfg, w, s, e).phase.Aborted? ==>
              var after := Apply(cfg, w, s, e);
              && after.stepsCount <= cfg.maxSteps && !e.Cancel?
              && after.stepsCount + Total(ExecutedWeight, after.tasks)
                 == s.stepsCount + Total(ExecutedWeight, s.tasks) + if e.Exec? && !e.outcome.Cancelled? then 1 else 0
  {
    if e.Receive? || e.Scan? {
      hide MayRun, Advance, Total, Apply;
      StartAccounts(cfg, w, s, e);
    } else if e.Cancel? {
      hide MayRun, Advance, Total;
    } else if !Apply(cfg, w, s, e).phase.Aborted? {
      hide MayRun, Advance, Total, Apply;
      TaskAccounts(cfg, w, s, e);
    }
  }

  // Bad tasks come from failing turns and stay until their join ends the run.
  lemma StepBad(cfg: EngineConfig, w: Workflow, s: State, e: Event, t: nat)
    requires Enabled(cfg, w, s, e)
    ensures !Apply(cfg, w, s, e).phase.Aborted? ==>
              (IsBad(Apply(cfg, w, s, e), t)
               <==> IsBad(s, t) || (e.Exec? && e.t == t && Fails(w, s.tasks[t].step, s.tasks[t].iteration, e.outcome)))
  {
    hide MayRun, Advance, Fails;
    if e.Exec? {
      AdvanceIs(w, s.tasks[e.t].step, s.tasks[e.t].iteration, e.outcome);
      FailsDoesNotGo(w, s.tasks[e.t].step, s.tasks[e.t].iteration, e.outcome);
    }
  }

  lemma FailsDoesNotGo(w: Workflow, step: Step, iteration: nat, outcome: Outcome)
    ensures Advance(w, step, iteration, outcome).Continue? ==> !Fails(w, step, iteration, outcome)
  {
    AdvanceIs(w, step, iteration, outcome);
  }

  lemma AccountsGrow(cfg: EngineConfig, w: Workflow, s: State, events: seq<Event>)
    requires events != [] && IsRun(cfg, w, s, events) && IsRun(cfg, w, s, events[..|events| - 1])
    requires Accounts(cfg, w, s, events[..|events| - 1])
    ensures Accounts(cfg, w, s, events)
  {
    hide IsRun, After, Apply, FailsAt, Fails, IsBad;
    LastStep(cfg, w, s, events);
    var n, e, init := |events| - 1, events[|events| - 1], events[..|events| - 1];
    var before, after := After(cfg, w, s, init), After(cfg, w, s, events);
    assert !before.phase.Aborted?;
    StepAccounts(cfg, w, before, e);
    assert events == init + [e];
    if !after.phase.Aborted? {
      forall t: nat | IsBad(after, t) ensures exists i :: FailsAt(cfg, w, s, events, i) {
        StepBad(cfg, w, before, e, t);
        if IsBad(before, t) {
          var i :| FailsAt(cfg, w, s, init, i);
          FailsGrows(cfg, w, s, events, i);
        } else {
          FailsGrows(cfg, w, s, events, n);
        }
      }
      forall i: nat | FailsAt(cfg, w, s, events, i) ensures exists t :: IsBad(after, t) {
        FailsGrows(cfg, w, s, events, i);
        if i < n {
          var t :| IsBad(before, t);
          StepBad(cfg, w, before, e, t);
        } else {
          StepBad(cfg, w, before, e, e.t);
        }
      }
    }
  }

  lemma {:induction false} RunAccounts(cfg: EngineConfig, w: Workflow, events: seq<Event>)
    requires HasStep(w, w.entry) && IsRun(cfg, w, Init(w), events)
    ensures Accounts(cfg, w, Init(w), events)
    decreases |events|
  {
    if events == [] {
      TotalAppend(ExecutedWeight, [], Running(GetStep(w.steps, w.entry).value, 0, 0));
      assert [] + Init(w).tasks == Init(w).tasks;
    } else {
      hide Accounts, IsRun;
      LastStep(cfg, w, Init(w), events);
      RunAccounts(cfg, w, events[..|events| - 1]);
      AccountsGrow(cfg, w, Init(w), events);
    }
  }

  // Everything went as it should.
  ghost predicate AllWell(cfg: EngineConfig, w: Workflow, events: seq<Event>)
    requires HasStep(w, w.entry) && IsRun(cfg, w, Init(w), events)
  {
    && Cancel !in events && Executions(events) <= cfg.maxSteps
    && forall i :: !FailsAt(cfg, w, Init(w), events, i)
  }

  lemma LeftIsWell(cfg: EngineConfig, w: Workflow, events: seq<Event>)
    requires HasStep(w, w.entry) && IsRun(cfg, w, Init(w), events) && After(cfg, w, Init(w), events).phase.Left?
    ensures AllWell(cfg, w, events)
  {
    hide IsRun, After, FailsAt;
    RunAccounts(cfg, w, events);
    LeavingIsQuiescent(cfg, w, events);
    var after := After(cfg, w, Init(w), events);
    AllJoined(after.tasks);
    forall t ensures !IsBad(after, t) {
    }
  }

  lemma {:induction false} AllJoined(tasks: seq<Task>)
    requires forall i :: 0 <= i < |tasks| ==> tasks[i] == Joined(1)
    ensures Total(ExecutedWeight, tasks) == 0
    decreases |tasks|
  {
    if tasks != [] {
      AllJoined(tasks[..|tasks| - 1]);
    }
  }

  // The last event of an aborted run says why.
  lemma AbortedIsNotWell(cfg: EngineConfig, w: Workflow, events: seq<Event>)
    requires HasStep(w, w.entry) && IsRun(cfg, w, Init(w), events) && After(cfg, w, Init(w), events).phase.Aborted?
    ensures !AllWell(cfg, w, events)
  {
    hide IsRun, After, FailsAt;
    AfterNothing(cfg, w, Init(w));
    LastStep(cfg, w, Init(w), events);
    var n, e, init := |events| - 1, events[|events| - 1], events[..|events| - 1];
    var before := After(cfg, w, Init(w), init);
    RunAccounts(cfg, w, init);
    AbortCause(cfg, w, before, e);
    if e.Join? {
      TotalAtLeast(ExecutedWeight, before.tasks, e.t);
      if IsBad(before, e.t) {
        var i :| FailsAt(cfg, w, Init(w), init, i);
        FailsGrows(cfg, w, Init(w), events, i);
      }
    }
  }

  lemma AfterNothing(cfg: EngineConfig, w: Workflow, s: State)
    ensures IsRun(cfg, w, s, []) && After(cfg, w, s, []) == s
  {
  }

  lemma AbortCause(cfg: EngineConfig, w: Workflow, s: State, e: Event)
    requires Enabled(cfg, w, s, e) && Apply(cfg, w, s, e).phase.Aborted?
    ensures e.Cancel? || (e.Join? && (IsBad(s, e.t) || s.stepsCount + s.tasks[e.t].executed > cfg.maxSteps))
  {
    hide MayRun, Advance;
  }

  /**
    A run that has ended left normally if and only if it was not cancelled, no turn in it failed
    its task, and its node executions are within `max_steps`; otherwise it aborted.
   */
  lemma EndsWellIff(cfg: EngineConfig, w: Workflow, events: seq<Event>)
    requires HasStep(w, w.entry) && IsRun(cfg, w, Init(w), events)
    requires var phase := After(cfg, w, Init(w), events).phase; phase.Left? || phase.Aborted?
    ensures After(cfg, w, Init(w), events).phase.Left? <==> AllWell(cfg, w, events)
  {
    hide AllWell, After, IsRun;
    if After(cfg, w, Init(w), events).phase.Left? {
      LeftIsWell(cfg, w, events);
    } else {
      AbortedIsNotWell(cfg, w, events);
    }
  }

  // ---- Which steps a run starts ----

  // The turn ends its task well and announces the step.
  ghost predicate Tells(w: Workflow, step: Step, iteration: nat, outcome: Outcome, id: string) {
    && !Fails(w, step, iteration, outcome) && (forall next, i :: !GoesTo(w, step, iteration, outcome, next, i))
    && outcome.ToolOk? && EdgeTargets(step.edges, outcome.conditions).Some?
    && ToStep(id) in EdgeTargets(step.edges, outcome.conditions).value
  }

  ghost predicate ToldIn(cfg: EngineConfig, w: Workflow, s: State, events: seq<Event>, id: string)
    requires IsRun(cfg, w, s, events)
  {
    exists i, step, iteration, outcome :: TurnAt(cfg, w, s, events, i, step, iteration, outcome) && Tells(w, step, iteration, outcome, id)
  }

  lemma PlacedIsTarget(targets: seq<EdgeTarget>, ids: seq<string>, at: seq<nat>, i: nat)
    requires Places(targets, ids, at) && i < |ids|
    ensures ToStep(ids[i]) in targets
  {
    assert targets[at[i]] == ToStep(ids[i]);
  }

  lemma TargetIsPlaced(targets: seq<EdgeTarget>, ids: seq<string>, at: seq<nat>, j: nat)
    requires Places(targets, ids, at) && j < |targets| && targets[j].ToStep?
    ensures targets[j].id in ids
  {
    assert j in at;
    var i :| 0 <= i < |at| && at[i] == j;
    assert ids[i] == targets[at[i]].id;
  }

  lemma ListedIff(targets: seq<EdgeTarget>, ids: seq<string>, id: string)
    requires ListsSteps(targets, ids)
    ensures id in ids <==> ToStep(id) in targets
  {
    hide Places;
    var at :| Places(targets, ids, at);
    if id in ids {
      var i :| 0 <= i < |ids| && ids[i] == id;
      PlacedIsTarget(targets, ids, at, i);
    }
    if ToStep(id) in targets {
      var j :| 0 <= j < |targets| && targets[j] == ToStep(id);
      TargetIsPlaced(targets, ids, at, j);
    }
  }

  lemma TellsIff(w: Workflow, step: Step, iteration: nat, outcome: Outcome, id: string)
    ensures Tells(w, step, iteration, outcome, id)
       <==> Advance(w, step, iteration, outcome).Finish? && id in Advance(w, step, iteration, outcome).spawn
  {
    hide Advance, EdgeTargets, ListsSteps, Fails, GoesTo;
    var m := Advance(w, step, iteration, outcome);
    AdvanceIs(w, step, iteration, outcome);
    if m.Finish? && m.ok && outcome.ToolOk? {
      ListedIff(EdgeTargets(step.edges, outcome.conditions).value, m.spawn, id);
    }
  }

  // The request is on its way: still with its task, or in the channel.
  predicate OnItsWay(s: State, id: string) {
    || SpawnNext(id) in s.channel
    || exists t :: 0 <= t < |s.tasks| && s.tasks[t].Sending? && SpawnNext(id) in s.tasks[t].pending
  }

  predicate Known(s: State, id: string) {
    id in s.reachable || OnItsWay(s, id)
  }

  lemma ExecKnown(cfg: EngineConfig, w: Workflow, s: State, t: nat, outcome: Outcome, id: string)
    requires Enabled(cfg, w, s, Exec(t, outcome))
    ensures Known(ApplyExec(w, s, t, outcome), id)
       <==> Known(s, id) || Tells(w, s.tasks[t].step, s.tasks[t].iteration, outcome, id)
  {
    hide Advance, Tells;
    var after, task := ApplyExec(w, s, t, outcome), s.tasks[t];
    TellsIff(w, task.step, task.iteration, outcome, id);
    var m := Advance(w, task.step, task.iteration, outcome);
    if m.Finish? {
      var ms := Messages(task.step.id, m.spawn);
      assert after.tasks[t].pending == ms;
      if id in m.spawn {
        var i :| 0 <= i < |m.spawn| && m.spawn[i] == id;
        assert ms[i] == SpawnNext(id);
      }
      if SpawnNext(id) in ms {
        var i :| 0 <= i < |ms| && ms[i] == SpawnNext(id);
        assert m.spawn[i] == id;
      }
    }
    if u :| 0 <= u < |s.tasks| && s.tasks[u].Sending? && SpawnNext(id) in s.tasks[u].pending {
      assert after.tasks[u] == s.tasks[u];
    }
  }

  lemma SendKnown(cfg: EngineConfig, w: Workflow, s: State, t: nat, id: string)
    requires Enabled(cfg, w, s, Send(t))
    ensures Known(ApplySend(s, t), id) <==> Known(s, id)
  {
    var after, pending := ApplySend(s, t), s.tasks[t].pending;
    assert pending == [pending[0]] + pending[1..];
    assert after.tasks[t].pending == pending[1..];
    if u :| 0 <= u < |s.tasks| && s.tasks[u].Sending? && SpawnNext(id) in s.tasks[u].pending {
      if u != t {
        assert after.tasks[u] == s.tasks[u];
      }
    }
    if u :| 0 <= u < |s.tasks| && after.tasks[u].Sending? && SpawnNext(id) in after.tasks[u].pending {
      assert s.tasks[u].Sending? && SpawnNext(id) in s.tasks[u].pending;
    }
  }

  lemma StartedKnown(w: Workflow, s: State, target: string, id: string)
    ensures Known(TrySpawn(w, s, target), id) <==> Known(s, id)
  {
    hide MayRun;
    var after := TrySpawn(w, s, target);
    if u :| 0 <= u < |s.tasks| && s.tasks[u].Sending? && SpawnNext(id) in s.tasks[u].pending {
      assert after.tasks[u] == s.tasks[u];
    }
    if u :| 0 <= u < |after.tasks| && after.tasks[u].Sending? && SpawnNext(id) in after.tasks[u].pending {
      assert after.tasks[u] == s.tasks[u];
    }
  }

  lemma ReceiveKnown(cfg: EngineConfig, w: Workflow, s: State, id: string)
    requires Enabled(cfg, w, s, Receive)
    ensures Known(ApplyReceive(cfg, w, s), id) <==> Known(s, id)
  {
    hide TrySpawn, Active;
    var m, rest := s.channel[0], s.(channel := s.channel[1..]);
    assert s.channel == [m] + s.channel[1..];
    if m.SpawnNext? {
      var seen := rest.(reachable := s.reachable + {m.id});
      assert Known(seen, id) <==> Known(s, id);
      StartedKnown(w, seen, m.id, id);
    }
  }

  lemma JoinKnown(cfg: EngineConfig, w: Workflow, s: State, t: nat, id: string)
    requires Enabled(cfg, w, s, Join(t))
    ensures Known(ApplyJoin(cfg, s, t), id) <==> Known(s, id)
  {
    hide Active;
    var after := ApplyJoin(cfg, s, t);
    if u :| 0 <= u < |s.tasks| && s.tasks[u].Sending? && SpawnNext(id) in s.tasks[u].pending {
      assert after.tasks[u] == s.tasks[u];
    }
    if u :| 0 <= u < |after.tasks| && after.tasks[u].Sending? && SpawnNext(id) in after.tasks[u].pending {
      assert after.tasks[u] == s.tasks[u];
    }
  }

  lemma StepKnown(cfg: EngineConfig, w: Workflow, s: State, e: Event, id: string)
    requires Enabled(cfg, w, s, e)
    ensures Known(Apply(cfg, w, s, e), id)
       <==> Known(s, id) || (e.Exec? && Tells(w, s.tasks[e.t].step, s.tasks[e.t].iteration, e.outcome, id))
  {
    hide TrySpawn, Active, Tells, ApplyExec, ApplySend, ApplyReceive, ApplyJoin, OnItsWay;
    match e {
      case Exec(t, outcome) => ExecKnown(cfg, w, s, t, outcome, id);
      case Send(t) => SendKnown(cfg, w, s, t, id);
      case Join(t) => JoinKnown(cfg, w, s, t, id);
      case Receive => ReceiveKnown(cfg, w, s, id);
      case Scan(target) => ScanKnown(cfg, w, s, target, id);
      case Cancel => CancelKnown(s, id);
    }
  }

  lemma ScanKnown(cfg: EngineConfig, w: Workflow, s: State, target: string, id: string)
    requires Enabled(cfg, w, s, Scan(target))
    ensures Known(ApplyScan(cfg, w, s, target), id) <==> Known(s, id)
  {
    hide TrySpawn, Active;
    StartedKnown(w, s, target, id);
  }

  lemma CancelKnown(s: State, id: string)
    ensures Known(s.(phase := Aborted), id) <==> Known(s, id)
  {
  }

  lemma ToldGrows(cfg: EngineConfig, w: Workflow, s: State, events: seq<Event>, id: string)
    requires events != [] && IsRun(cfg, w, s, events) && IsRun(cfg, w, s, events[..|events| - 1])
    ensures var e, init := events[|events| - 1], events[..|events| - 1];
      && Enabled(cfg, w, After(cfg, w, s, init), e)
      && (ToldIn(cfg, w, s, events, id)
          <==> ToldIn(cfg, w, s, init, id)
               || (e.Exec? && var task := After(cfg, w, s, init).tasks[e.t]; Tells(w, task.step, task.iteration, e.outcome, id)))
  {
    hide IsRun, After, TurnAt, Tells;
    LastStep(cfg, w, s, events);
    var n, e, init := |events| - 1, events[|events| - 1], events[..|events| - 1];
    if i: nat, step: Step, iteration: nat, outcome: Outcome :|
        TurnAt(cfg, w, s, events, i, step, iteration, outcome) && Tells(w, step, iteration, outcome, id) {
      TurnIndex(cfg, w, s, events, i, step, iteration, outcome);
      if i < n {
        TurnInPrefix(cfg, w, s, events, i, step, iteration, outcome);
      } else {
        LastTurn(cfg, w, s, events, step, iteration, outcome);
      }
    }
    if i: nat, step: Step, iteration: nat, outcome: Outcome :|
        TurnAt(cfg, w, s, init, i, step, iteration, outcome) && Tells(w, step, iteration, outcome, id) {
      TurnIndex(cfg, w, s, init, i, step, iteration, outcome);
      TurnInPrefix(cfg, w, s, events, i, step, iteration, outcome);
    }
    if e.Exec? {
      var task := After(cfg, w, s, init).tasks[e.t];
      if Tells(w, task.step, task.iteration, e.outcome, id) {
        LastTurn(cfg, w, s, events, task.step, task.iteration, e.outcome);
      }
    }
  }

  // At every moment, what is reachable or asked for is the entry and what was announced.
  lemma {:induction false} KnownIff(cfg: EngineConfig, w: Workflow, events: seq<Event>, id: string)
    requires HasStep(w, w.entry) && IsRun(cfg, w, Init(w), events)
    ensures Known(After(cfg, w, Init(w), events), id) <==> id == w.entry || ToldIn(cfg, w, Init(w), events, id)
    decreases |events|
  {
    hide IsRun, Apply, Enabled, ToldIn, Tells;
    if events == [] {
      NothingTold(cfg, w, Init(w), id);
    } else {
      LastStep(cfg, w, Init(w), events);
      KnownIff(cfg, w, events[..|events| - 1], id);
      ToldGrows(cfg, w, Init(w), events, id);
      hide After, Known;
      StepKnown(cfg, w, After(cfg, w, Init(w), events[..|events| - 1]), events[|events| - 1], id);
    }
  }

  lemma NothingTold(cfg: EngineConfig, w: Workflow, s: State, id: string)
    ensures IsRun(cfg, w, s, []) && !ToldIn(cfg, w, s, [], id)
  {
  }

  // Only what is reachable is started.
  predicate StartedReachable(s: State) {
    (forall id :: id in s.started ==> id in s.reachable) && (s.phase.Scanning? ==> s.phase.todo <= s.reachable)
  }

  lemma StepStartedReachable(cfg: EngineConfig, w: Workflow, s: State, e: Event)
    requires StartedReachable(s) && Enabled(cfg, w, s, e)
    ensures StartedReachable(Apply(cfg, w, s, e))
  {
    hide MayRun, Advance, Active;
  }

  lemma {:induction false} RunStartedReachable(cfg: EngineConfig, w: Workflow, s: State, events: seq<Event>)
    requires StartedReachable(s) && IsRun(cfg, w, s, events)
    ensures StartedReachable(After(cfg, w, s, events))
    decreases |events|
  {
    hide StartedReachable, Enabled, Apply;
    if events != [] {
      StepStartedReachable(cfg, w, s, events[0]);
      RunStartedReachable(cfg, w, Apply(cfg, w, s, events[0]), events[1..]);
    }
  }

  /** A step is only ever started because some turn of the run announced it, but for the entry. */
  lemma StartedWasTold(cfg: EngineConfig, w: Workflow, events: seq<Event>, id: string)
    requires HasStep(w, w.entry) && IsRun(cfg, w, Init(w), events) && id in After(cfg, w, Init(w), events).started
    ensures id == w.entry || ToldIn(cfg, w, Init(w), events, id)
  {
    hide IsRun, After, ToldIn;
    assert StartedReachable(Init(w));
    RunStartedReachable(cfg, w, Init(w), events);
    KnownIff(cfg, w, events, id);
  }

  /**
    What a run that leaves with room for every step has started: the entry, and exactly the
    announced steps whose join policy the recorded outputs and errors meet.
   */
  lemma StartedIff(cfg: EngineConfig, w: Workflow, events: seq<Event>, id: string)
    requires HasStep(w, w.entry) && cfg.maxConcurrentNodes >= |w.steps|
    requires IsRun(cfg, w, Init(w), events) && After(cfg, w, Init(w), events).phase.Left?
    ensures var s := After(cfg, w, Init(w), events);
      id in s.started
      <==> id == w.entry
           || (ToldIn(cfg, w, Init(w), events, id) && HasStep(w, id) && PolicyMet(GetStep(w.steps, id).value, s.completed))
  {
    hide IsRun, ToldIn, PolicyMet, MayRun;
    var s := After(cfg, w, Init(w), events);
    LeavingIsQuiescent(cfg, w, events);
    EntryStarted(cfg, w, events);
    KnownIff(cfg, w, events, id);
    DrainedHasNoRequest(s, id);
    if HasStep(w, id) {
      MayRunIff(GetStep(w.steps, id).value, s.completed);
    }
    if id in s.started && id != w.entry {
      StartedWasTold(cfg, w, events, id);
      var i :| 0 <= i < |s.started| && s.started[i] == id;
    }
  }

  lemma DrainedHasNoRequest(s: State, id: string)
    requires Drained(s)
    ensures !OnItsWay(s, id)
  {
  }

  lemma StepKeepsFirst(cfg: EngineConfig, w: Workflow, s: State, e: Event)
    requires Enabled(cfg, w, s, e) && s.started != []
    ensures Apply(cfg, w, s, e).started != [] && Apply(cfg, w, s, e).started[0] == s.started[0]
  {
    hide MayRun, Advance, Active;
  }

  lemma {:induction false} RunKeepsFirst(cfg: EngineConfig, w: Workflow, s: State, events: seq<Event>)
    requires IsRun(cfg, w, s, events) && s.started != []
    ensures After(cfg, w, s, events).started != [] && After(cfg, w, s, events).started[0] == s.started[0]
    decreases |events|
  {
    hide Enabled, Apply;
    if events != [] {
      StepKeepsFirst(cfg, w, s, events[0]);
      RunKeepsFirst(cfg, w, Apply(cfg, w, s, events[0]), events[1..]);
    }
  }

  lemma EntryStarted(cfg: EngineConfig, w: Workflow, events: seq<Event>)
    requires HasStep(w, w.entry) && IsRun(cfg, w, Init(w), events)
    ensures var started := After(cfg, w, Init(w), events).started; started != [] && started[0] == w.entry
  {
    RunKeepsFirst(cfg, w, Init(w), events);
  }

  // ---- The channel ----

  function SentBy(cfg: EngineConfig, w: Workflow, s: State, e: Event): seq<Msg>
    requires Enabled(cfg, w, s, e)
  {
    if e.Send? then [s.tasks[e.t].pending[0]] else []
  }

  function ReceivedBy(cfg: EngineConfig, w: Workflow, s: State, e: Event): seq<Msg>
    requires Enabled(cfg, w, s, e)
  {
    if e.Receive? then [s.channel[0]] else []
  }

  // What the tasks sent during a run, and what the loop received, each in order.
  function Sent(cfg: EngineConfig, w: Workflow, s: State, events: seq<Event>): seq<Msg>
    requires IsRun(cfg, w, s, events)
    decreases |events|
  {
    if events == [] then []
    else SentBy(cfg, w, s, events[0]) + Sent(cfg, w, Apply(cfg, w, s, events[0]), events[1..])
  }

  function Received(cfg: EngineConfig, w: Workflow, s: State, events: seq<Event>): seq<Msg>
    requires IsRun(cfg, w, s, events)
    decreases |events|
  {
    if events == [] then []
    else ReceivedBy(cfg, w, s, events[0]) + Received(cfg, w, Apply(cfg, w, s, events[0]), events[1..])
  }

  lemma StepChannel(cfg: EngineConfig, w: Workflow, s: State, e: Event)
    requires Enabled(cfg, w, s, e) && |s.channel| <= cfg.finishedChannelSize
    ensures |Apply(cfg, w, s, e).channel| <= cfg.finishedChannelSize
    ensures s.channel + SentBy(cfg, w, s, e) == ReceivedBy(cfg, w, s, e) + Apply(cfg, w, s, e).channel
  {
    hide MayRun, Advance, Total, Writes;
  }

  lemma {:induction false} RunChannel(cfg: EngineConfig, w: Workflow, s: State, events: seq<Event>)
    requires IsRun(cfg, w, s, events) && |s.channel| <= cfg.finishedChannelSize
    ensures |After(cfg, w, s, events).channel| <= cfg.finishedChannelSize
    ensures s.channel + Sent(cfg, w, s, events) == Received(cfg, w, s, events) + After(cfg, w, s, events).channel
    decreases |events|
  {
    hide Enabled, Apply, SentBy, ReceivedBy;
    if events != [] {
      var e, after := events[0], Apply(cfg, w, s, events[0]);
      StepChannel(cfg, w, s, e);
      RunChannel(cfg, w, after, events[1..]);
      ChannelsJoin(s.channel, SentBy(cfg, w, s, e), ReceivedBy(cfg, w, s, e), after.channel,
                   Sent(cfg, w, after, events[1..]), Received(cfg, w, after, events[1..]), After(cfg, w, after, events[1..]).channel);
    }
  }

  lemma ChannelsJoin(a: seq<Msg>, sent: seq<Msg>, got: seq<Msg>, b: seq<Msg>, moreSent: seq<Msg>, moreGot: seq<Msg>, c: seq<Msg>)
    requires a + sent == got + b && b + moreSent == moreGot + c
    ensures a + (sent + moreSent) == (got + moreGot) + c
  {
    calc {
      a + (sent + moreSent);
      (a + sent) + moreSent;
      got + (b + moreSent);
      (got + moreGot) + c;
    }
  }

  /**
    The channel never holds more than its size, and loses, repeats and reorders nothing: what was
    sent is what was received, followed by what it holds.
   */
  lemma ChannelIsFifo(cfg: EngineConfig, w: Workflow, events: seq<Event>)
    requires HasStep(w, w.entry) && IsRun(cfg, w, Init(w), events)
    ensures |After(cfg, w, Init(w), events).channel| <= cfg.finishedChannelSize
    ensures Sent(cfg, w, Init(w), events) == Received(cfg, w, Init(w), events) + After(cfg, w, Init(w), events).channel
  {
    RunChannel(cfg, w, Init(w), events);
    assert Init(w).channel + Sent(cfg, w, Init(w), events) == Sent(cfg, w, Init(w), events);
  }
}
