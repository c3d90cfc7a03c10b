/**
  One spawned task: the loop of `spawn_node`, which follows a single edge inline, repeats a
  step, jumps on errors, and ends by announcing targets and itself to the scheduler.

  The environment decides each node execution: cancelled, the tool failed, or it succeeded
  with given values for the repeat and edge conditions.
 */
module TaskLoop {
  import opened Wrappers
  import opened Graphs
  import opened Schema
  import opened Validator
  import opened Workflows
  import opened Compiler
  import opened Routing
  import opened InlineFlow

  datatype Outcome =
    | Cancelled
    | ToolErr
    | ToolOk(until: Eval, conditions: Eval)

  // After one node execution: go on inline, or announce `spawn` and then the node itself.
  datatype Move =
    | Continue(step: Step, iteration: nat)
    | Finish(spawn: seq<string>, ok: bool)

  // ---- What one execution leads to, said on the step and the outcome ----

  /** A step is repeated while its condition is false and iterations remain. */
  predicate Repeats(step: Step, iteration: nat, outcome: Outcome) {
    && outcome.ToolOk? && step.repeat_.Some?
    && outcome.until(step.repeat_.value.until) == Some(false) && iteration + 1 < step.repeat_.value.max
  }

  /**
    What makes a task fail: a cancellation, a tool failing under `Fail` or with a jump to a step
    that is not there, or a condition that cannot be evaluated.
   */
  predicate Fails(w: Workflow, step: Step, iteration: nat, outcome: Outcome) {
    match outcome
    case Cancelled => true
    case ToolErr => step.onError.Fail? || (step.onError.Goto? && !HasStep(w, step.onError.step))
    case ToolOk(until, conditions) =>
      || (step.repeat_.Some? && until(step.repeat_.value.until).None?)
      || (!Repeats(step, iteration, outcome) && EdgeTargets(step.edges, conditions).None?)
  }

  // The task goes on with iteration `i` of `next`: repeating, jumping on an error, or following
  // a single target that waits for at most one dependency.
  predicate GoesTo(w: Workflow, step: Step, iteration: nat, outcome: Outcome, next: Step, i: nat) {
    if Repeats(step, iteration, outcome) then next == step && i == iteration + 1
    else
      && i == 0 && GetStep(w.steps, next.id) == Some(next) && !Fails(w, step, iteration, outcome)
      && match outcome
         case Cancelled => false
         case ToolErr => step.onError == Goto(next.id)
         case ToolOk(_, conditions) =>
           EdgeTargets(step.edges, conditions) == Some([ToStep(next.id)]) && |next.dependsOn| <= 1
  }

  // `at` are the places of the steps among the targets, in order, and `ids` those steps.
  predicate Places(targets: seq<EdgeTarget>, ids: seq<string>, at: seq<nat>) {
    && |at| == |ids| && (forall i :: 0 <= i < |at| ==> at[i] < |targets| && targets[at[i]] == ToStep(ids[i]))
    && (forall i, j :: 0 <= i < j < |at| ==> at[i] < at[j])
    && (forall j :: 0 <= j < |targets| && targets[j].ToStep? ==> j in at)
  }

  ghost predicate ListsSteps(targets: seq<EdgeTarget>, ids: seq<string>) {
    exists at :: Places(targets, ids, at)
  }

  // What an execution that ends the task well announces: the chosen targets of a success, and
  // nothing after an error that is skipped or answered by a fallback.
  ghost predicate Announces(step: Step, outcome: Outcome, spawn: seq<string>) {
    match outcome
    case ToolOk(_, conditions) =>
      EdgeTargets(step.edges, conditions).Some? && ListsSteps(EdgeTargets(step.edges, conditions).value, spawn)
    case _ => spawn == []
  }

  // ---- The code's turn ----

  function StepIds(targets: seq<EdgeTarget>): (ids: seq<string>)
    ensures |ids| <= |targets|
  {
    if targets == [] then []
    else StepIds(targets[..|targets| - 1]) + if targets[|targets| - 1].ToStep? then [targets[|targets| - 1].id] else []
  }

  function FollowTargets(w: Workflow, targets: seq<EdgeTarget>): Move {
    if |targets| == 1 then
      match targets[0]
      case Return => Finish([], true)
      case ToStep(id) =>
        var next := GetStep(w.steps, id);
        if next.Some? && |next.value.dependsOn| <= 1 then Continue(next.value, 0)
        else Finish([id], true)
    else Finish(StepIds(targets), true)
  }

  function AfterSuccess(w: Workflow, step: Step, conditions: Eval): Move {
    match EdgeTargets(step.edges, conditions)
    case None => Finish([], false)
    case Some(targets) => FollowTargets(w, targets)
  }

  // One turn of the task loop.
  function Advance(w: Workflow, step: Step, iteration: nat, outcome: Outcome): Move {
    match outcome
    case Cancelled => Finish([], false)
    case ToolErr =>
      (match step.onError
       case Fail => Finish([], false)
       case Skip => Finish([], true)
       case Fallback(_) => Finish([], true)
       case Goto(target) =>
         var next := GetStep(w.steps, target);
         if next.Some? then Continue(next.value, 0) else Finish([], false))
    case ToolOk(until, conditions) =>
      if step.repeat_.None? then AfterSuccess(w, step, conditions)
      else
        match until(step.repeat_.value.until)
        case None => Finish([], false)
        case Some(done) =>
          if !done && iteration + 1 < step.repeat_.value.max then Continue(step, iteration + 1)
          else AfterSuccess(w, step, conditions)
  }

  lemma {:induction false} StepIdsList(targets: seq<EdgeTarget>)
    ensures ListsSteps(targets, StepIds(targets))
    decreases |targets|
  {
    if targets == [] {
      assert Places(targets, [], []);
    } else {
      var init, last := targets[..|targets| - 1], targets[|targets| - 1];
      assert StepIds(targets) == StepIds(init) + if last.ToStep? then [last.id] else [];
      assert targets == init + [last];
      hide StepIds, Places;
      StepIdsList(init);
      var at :| Places(init, StepIds(init), at);
      ListsMore(init, last, StepIds(init), at);
    }
  }

  lemma ListsMore(init: seq<EdgeTarget>, last: EdgeTarget, ids: seq<string>, at: seq<nat>)
    requires Places(init, ids, at)
    ensures ListsSteps(init + [last], ids + if last.ToStep? then [last.id] else [])
  {
    var targets := init + [last];
    assert forall j :: 0 <= j < |init| ==> targets[j] == init[j];
    if last.ToStep? {
      var all := at + [|init|];
      assert all[|at|] == |init|;
      assert forall i :: 0 <= i < |at| ==> all[i] == at[i];
      assert Places(targets, ids + [last.id], all);
    } else {
      assert ids + [] == ids;
      assert Places(targets, ids, at);
    }
  }

  lemma FollowedIs(w: Workflow, targets: seq<EdgeTarget>)
    ensures var m := FollowTargets(w, targets);
      && (m.Finish? ==> m.ok && ListsSteps(targets, m.spawn))
      && (m.Continue? ==> m.iteration == 0 && targets == [ToStep(m.step.id)]
                          && GetStep(w.steps, m.step.id) == Some(m.step) && |m.step.dependsOn| <= 1)
      && (m.Finish? ==> forall next: Step :: targets == [ToStep(next.id)] && GetStep(w.steps, next.id) == Some(next) ==>
                          |next.dependsOn| > 1)
  {
    StepIdsList(targets);
    if |targets| == 1 {
      assert targets == [targets[0]];
      assert targets[0].ToStep? ==> Places(targets, [targets[0].id], [0]);
      assert targets[0].Return? ==> Places(targets, [], []);
    }
  }

  /** The turn of the loop does exactly that: it goes on where it may, and else ends as it should. */
  lemma AdvanceIs(w: Workflow, step: Step, iteration: nat, outcome: Outcome)
    ensures var m := Advance(w, step, iteration, outcome);
      && (m.Continue? ==> GoesTo(w, step, iteration, outcome, m.step, m.iteration))
      && (m.Finish? ==>
            && (forall next, i :: !GoesTo(w, step, iteration, outcome, next, i))
            && (m.ok <==> !Fails(w, step, iteration, outcome))
            && (m.ok ==> Announces(step, outcome, m.spawn)) && (!m.ok ==> m.spawn == []))
  {
    hide EdgeTargets, FollowTargets, ListsSteps;
    if outcome.ToolOk? && EdgeTargets(step.edges, outcome.conditions).Some? {
      FollowedIs(w, EdgeTargets(step.edges, outcome.conditions).value);
    }
  }

  // State keys a turn writes before it announces anything: the loop variable, then the
  // node's own output or error.  An error jump records nothing for the failed node.
  function Writes(step: Step, outcome: Outcome): set<string> {
    if outcome.Cancelled? then {}
    else
      (if step.repeat_.Some? && step.repeat_.value.asVar.Some? then {step.repeat_.value.asVar.value} else {})
      + (if outcome.ToolErr? && step.onError.Goto? then {} else {step.id})
  }

  // ---- The order that makes every task end ----

  // Steps listed so that wherever a task may go on inline is at an earlier position.
  ghost predicate Guides(w: Workflow, order: seq<string>) {
    && Distinct(order)
    && (forall i :: 0 <= i < |w.steps| ==> w.steps[i].id in order)
    && (forall a, b :: Inline(w, a, b) ==> a in order && b in order && IndexOf(order, b) < IndexOf(order, a))
  }

  // How often one visit may execute a step.
  function Cap(step: Step): (n: nat)
    ensures n >= 1
  {
    if step.repeat_.Some? && step.repeat_.value.max > 1 then step.repeat_.value.max else 1
  }

  function CapOf(steps: seq<Step>, id: string): nat {
    match GetStep(steps, id)
    case None => 0
    case Some(step) => Cap(step)
  }

  function Cost(steps: seq<Step>, order: seq<string>, k: nat): nat
    requires k <= |order|
  {
    if k == 0 then 0 else Cost(steps, order, k - 1) + CapOf(steps, order[k - 1])
  }

  ghost predicate At(w: Workflow, order: seq<string>, step: Step, iteration: nat) {
    Guides(w, order) && GetStep(w.steps, step.id) == Some(step) && step.id in order && iteration < Cap(step)
  }

  // Executions that may still follow, this one included.
  ghost function Fuel(w: Workflow, order: seq<string>, step: Step, iteration: nat): nat
    requires At(w, order, step, iteration)
  {
    Cost(w.steps, order, IndexOf(order, step.id)) + Cap(step) - iteration
  }

  lemma {:induction false} CostGrows(steps: seq<Step>, order: seq<string>, j: nat, k: nat)
    requires j <= k <= |order|
    ensures Cost(steps, order, j) <= Cost(steps, order, k)
    decreases k
  {
    if j < k {
      CostGrows(steps, order, j, k - 1);
    }
  }

  lemma InlineDescends(w: Workflow, order: seq<string>, step: Step, iteration: nat, t: string)
    requires At(w, order, step, iteration) && Inline(w, step.id, t)
    ensures At(w, order, GetStep(w.steps, t).value, 0)
    ensures Fuel(w, order, GetStep(w.steps, t).value, 0) < Fuel(w, order, step, iteration)
    ensures IndexOf(order, t) < IndexOf(order, step.id)
  {
    var a, b := IndexOf(order, t), IndexOf(order, step.id);
    CostGrows(w.steps, order, a + 1, b);
  }

  // A task that goes on repeats its step, or starts a step the inline graph leads to.
  ghost predicate GoesOnTo(w: Workflow, step: Step, iteration: nat, next: Step, i: nat) {
    || (next == step && i == iteration + 1 && step.repeat_.Some? && i < step.repeat_.value.max)
    || (Inline(w, step.id, next.id) && GetStep(w.steps, next.id) == Some(next) && i == 0)
  }

  lemma MoveIsInline(w: Workflow, step: Step, iteration: nat, outcome: Outcome)
    requires GetStep(w.steps, step.id) == Some(step) && Advance(w, step, iteration, outcome).Continue?
    ensures var m := Advance(w, step, iteration, outcome); GoesOnTo(w, step, iteration, m.step, m.iteration)
  {
    var m := Advance(w, step, iteration, outcome);
    match outcome {
      case ToolErr =>
      case ToolOk(until, conditions) =>
        if m != Continue(step, iteration + 1) {
          FollowedIsInline(w, step, conditions);
        }
    }
  }

  lemma FollowedIsInline(w: Workflow, step: Step, conditions: Eval)
    requires GetStep(w.steps, step.id) == Some(step) && AfterSuccess(w, step, conditions).Continue?
    ensures var m := AfterSuccess(w, step, conditions);
      Inline(w, step.id, m.step.id) && GetStep(w.steps, m.step.id) == Some(m.step) && m.iteration == 0
  {
    var targets := EdgeTargets(step.edges, conditions).value;
    assert targets == [targets[0]];
    SingleMayFollow(step.edges, conditions, targets[0].id);
  }

  /** A task that goes on has strictly fewer executions left. */
  lemma AdvanceDescends(w: Workflow, order: seq<string>, step: Step, iteration: nat, outcome: Outcome)
    requires At(w, order, step, iteration) && Advance(w, step, iteration, outcome).Continue?
    ensures var m := Advance(w, step, iteration, outcome);
            && At(w, order, m.step, m.iteration)
            && Fuel(w, order, m.step, m.iteration) < Fuel(w, order, step, iteration)
            && (m.step == step || IndexOf(order, m.step.id) < IndexOf(order, step.id))
  {
    var m := Advance(w, step, iteration, outcome);
    MoveIsInline(w, step, iteration, outcome);
    if Inline(w, step.id, m.step.id) && m.iteration == 0 && GetStep(w.steps, m.step.id) == Some(m.step) {
      InlineDescends(w, order, step, iteration, m.step.id);
    }
  }

  // ---- The loop ----

  datatype TaskEnd = TaskEnd(node: string, spawn: seq<string>, ok: bool, executed: nat)

  // The whole run as a function: `env(n)` is the outcome of the task's n-th execution.
  ghost function Run(w: Workflow, order: seq<string>, step: Step, iteration: nat, env: nat -> Outcome, n: nat): TaskEnd
    requires At(w, order, step, iteration)
    decreases Fuel(w, order, step, iteration)
  {
    var m := Advance(w, step, iteration, env(n));
    var executed := if env(n).Cancelled? then n else n + 1;
    if m.Finish? then TaskEnd(step.id, m.spawn, m.ok, executed)
    else
      AdvanceDescends(w, order, step, iteration, env(n));
      Run(w, order, m.step, m.iteration, env, n + 1)
  }

  // The executions of a task, each where the one before goes on.
  ghost predicate IsTrace(w: Workflow, start: Step, env: nat -> Outcome, trace: seq<(Step, nat)>) {
    && trace != [] && trace[0] == (start, 0)
    && forall i :: 0 <= i < |trace| - 1 ==>
         GoesTo(w, trace[i].0, trace[i].1, env(i), trace[i + 1].0, trace[i + 1].1)
  }

  // How the last execution ends the task.
  ghost predicate EndsWith(w: Workflow, env: nat -> Outcome, trace: seq<(Step, nat)>, end: TaskEnd)
    requires trace != []
  {
    var n := |trace| - 1;
    var (step, iteration) := trace[n];
    && (forall next, i :: !GoesTo(w, step, iteration, env(n), next, i))
    && end.node == step.id
    && (end.ok <==> !Fails(w, step, iteration, env(n)))
    && (end.ok ==> Announces(step, env(n), end.spawn)) && (!end.ok ==> end.spawn == [])
    && end.executed == if env(n).Cancelled? then n else n + 1
  }

  /**
    The task loop ends in every environment: it executes step after step as it may go on, and the
    last execution alone decides how it ends.  `Run` is the same as a function.
   */
  method RunTask(w: Workflow, ghost order: seq<string>, start: Step, env: nat -> Outcome)
    returns (end: TaskEnd, ghost trace: seq<(Step, nat)>)
    requires At(w, order, start, 0)
    ensures end == Run(w, order, start, 0, env, 0)
    ensures IsTrace(w, start, env, trace) && EndsWith(w, env, trace, end)
  {
    var current, iteration: nat, executed: nat := start, 0, 0;
    trace := [(start, 0)];
    while true
      invariant At(w, order, current, iteration)
      invariant Run(w, order, start, 0, env, 0) == Run(w, order, current, iteration, env, executed)
      invariant IsTrace(w, start, env, trace) && |trace| == executed + 1 && trace[executed] == (current, iteration)
      decreases Fuel(w, order, current, iteration)
    {
      var outcome := env(executed);
      var m := Advance(w, current, iteration, outcome);
      AdvanceIs(w, current, iteration, outcome);
      match m {
        case Finish(spawn, ok) =>
          end := TaskEnd(current.id, spawn, ok, if outcome.Cancelled? then executed else executed + 1);
          return;
        case Continue(next, i) =>
          AdvanceDescends(w, order, current, iteration, outcome);
          TraceGrows(w, start, env, trace, next, i);
          trace := trace + [(next, i)];
          executed := executed + 1;
          current, iteration := next, i;
      }
    }
  }

  lemma TraceGrows(w: Workflow, start: Step, env: nat -> Outcome, trace: seq<(Step, nat)>, next: Step, i: nat)
    requires IsTrace(w, start, env, trace)
    requires GoesTo(w, trace[|trace| - 1].0, trace[|trace| - 1].1, env(|trace| - 1), next, i)
    ensures IsTrace(w, start, env, trace + [(next, i)])
  {
    hide GoesTo;
  }

  // The steps a run visits, a repeated step once per visit.
  ghost function Visits(w: Workflow, order: seq<string>, step: Step, iteration: nat, env: nat -> Outcome, n: nat): seq<string>
    requires At(w, order, step, iteration)
    decreases Fuel(w, order, step, iteration)
  {
    var m := Advance(w, step, iteration, env(n));
    if m.Finish? then [step.id]
    else
      AdvanceDescends(w, order, step, iteration, env(n));
      var rest := Visits(w, order, m.step, m.iteration, env, n + 1);
      if m.step == step then rest else [step.id] + rest
  }

  ghost predicate Descending(order: seq<string>, visits: seq<string>) {
    && (forall v :: v in visits ==> v in order)
    && (forall i :: 0 <= i < |visits| - 1 ==> IndexOf(order, visits[i + 1]) < IndexOf(order, visits[i]))
  }

  lemma {:induction false} VisitsDescend(w: Workflow, order: seq<string>, step: Step, iteration: nat, env: nat -> Outcome, n: nat)
    requires At(w, order, step, iteration)
    ensures var visits := Visits(w, order, step, iteration, env, n);
            && Descending(order, visits) && visits != [] && visits[0] == step.id
            && visits[|visits| - 1] == Run(w, order, step, iteration, env, n).node
            && forall v :: v in visits ==> HasStep(w, v)
    decreases Fuel(w, order, step, iteration)
  {
    var m := Advance(w, step, iteration, env(n));
    if m.Continue? {
      AdvanceDescends(w, order, step, iteration, env(n));
      VisitsDescend(w, order, m.step, m.iteration, env, n + 1);
    }
  }

  lemma {:induction false} ExecutedWithinFuel(w: Workflow, order: seq<string>, step: Step, iteration: nat, env: nat -> Outcome, n: nat)
    requires At(w, order, step, iteration)
    ensures Run(w, order, step, iteration, env, n).executed <= n + Fuel(w, order, step, iteration)
    decreases Fuel(w, order, step, iteration)
  {
    var m := Advance(w, step, iteration, env(n));
    if m.Continue? {
      AdvanceDescends(w, order, step, iteration, env(n));
      ExecutedWithinFuel(w, order, m.step, m.iteration, env, n + 1);
    }
  }

  /**
    Whatever the tools answer, a task visits no step twice, and executes nodes at most as
    often as the sum of `max(1, repeat.max)` over all steps.
   */
  lemma TaskIsBounded(w: Workflow, order: seq<string>, start: Step, env: nat -> Outcome)
    requires At(w, order, start, 0)
    ensures Distinct(Visits(w, order, start, 0, env, 0))
    ensures Run(w, order, start, 0, env, 0).executed <= TotalCap(w.steps)
  {
    VisitsDescend(w, order, start, 0, env, 0);
    DescendingDistinct(order, Visits(w, order, start, 0, env, 0));
    ExecutedWithinFuel(w, order, start, 0, env, 0);
    FuelBound(w, order, start);
  }

  lemma {:induction false} DescendsBetween(order: seq<string>, visits: seq<string>, i: nat, j: nat)
    requires Descending(order, visits) && i < j < |visits|
    ensures IndexOf(order, visits[j]) < IndexOf(order, visits[i])
    decreases j
  {
    if i < j - 1 {
      DescendsBetween(order, visits, i, j - 1);
    }
    assert IndexOf(order, visits[(j - 1) + 1]) < IndexOf(order, visits[j - 1]);
  }

  lemma DescendingDistinct(order: seq<string>, visits: seq<string>)
    requires Descending(order, visits)
    ensures Distinct(visits)
  {
    forall i, j | 0 <= i < j < |visits| ensures visits[i] != visits[j] {
      DescendsBetween(order, visits, i, j);
    }
  }

  // ---- The bound, as the sum over the workflow's steps ----

  function TotalCap(steps: seq<Step>): nat {
    if steps == [] then 0 else TotalCap(steps[..|steps| - 1]) + Cap(steps[|steps| - 1])
  }

  lemma {:induction false} GetStepAppend(steps: seq<Step>, last: Step, id: string)
    ensures GetStep(steps + [last], id) ==
            if GetStep(steps, id).Some? then GetStep(steps, id) else if last.id == id then Some(last) else None
  {
    if steps != [] {
      assert (steps + [last])[1..] == steps[1..] + [last];
      GetStepAppend(steps[1..], last, id);
    }
  }

  lemma {:induction false} CostAppend(steps: seq<Step>, last: Step, order: seq<string>, k: nat)
    requires k <= |order| && Distinct(order)
    ensures Cost(steps + [last], order, k) <= Cost(steps, order, k) + (if last.id in order[..k] then Cap(last) else 0)
  {
    if k > 0 {
      CostAppend(steps, last, order, k - 1);
      GetStepAppend(steps, last, order[k - 1]);
      assert order[..k] == order[..k - 1] + [order[k - 1]];
    }
  }

  lemma {:induction false} CostBound(steps: seq<Step>, order: seq<string>, k: nat)
    requires k <= |order| && Distinct(order)
    ensures Cost(steps, order, k) <= TotalCap(steps)
    decreases |steps|, k
  {
    if steps == [] {
      if k > 0 {
        CostBound(steps, order, k - 1);
      }
    } else {
      var init, last := steps[..|steps| - 1], steps[|steps| - 1];
      assert steps == init + [last];
      CostAppend(init, last, order, k);
      CostBound(init, order, k);
    }
  }

  lemma FuelBound(w: Workflow, order: seq<string>, step: Step)
    requires At(w, order, step, 0)
    ensures Fuel(w, order, step, 0) <= TotalCap(w.steps)
  {
    CostBound(w.steps, order, IndexOf(order, step.id) + 1);
  }

  // ---- Exactly when every task ends ----

  // Where a task is after `n` turns that all went on; `None` once it has finished.
  function Position(w: Workflow, start: Step, env: nat -> Outcome, n: nat): Option<(Step, nat)> {
    if n == 0 then Some((start, 0))
    else
      match Position(w, start, env, n - 1)
      case None => None
      case Some((step, iteration)) =>
        match Advance(w, step, iteration, env(n - 1))
        case Finish(_, _) => None
        case Continue(next, i) => Some((next, i))
  }

  ghost predicate Ends(w: Workflow, start: Step, env: nat -> Outcome) {
    exists n :: Position(w, start, env, n).None?
  }

  ghost predicate EveryTaskEnds(w: Workflow) {
    forall id: string, env: nat -> Outcome :: HasStep(w, id) ==> Ends(w, GetStep(w.steps, id).value, env)
  }

  lemma AcyclicIsGuided(w: Workflow) returns (order: seq<string>)
    requires !Cyclic(InlineGraph(w))
    ensures Guides(w, order)
  {
    var g := InlineGraph(w);
    order := TopologicalOrder(g);
    forall i | 0 <= i < |w.steps| ensures w.steps[i].id in order {
      assert w.steps[i].id in g;
    }
    forall a, b | Inline(w, a, b) ensures a in order && b in order && IndexOf(order, b) < IndexOf(order, a) {
      InlineEdgeIff(w, a, b);
      EdgeDescends(g, order, a, b);
    }
  }

  // A task still going after `n` turns has used up `n` of its fuel.
  lemma {:induction false} FuelSpent(w: Workflow, order: seq<string>, start: Step, env: nat -> Outcome, n: nat)
    requires At(w, order, start, 0) && Position(w, start, env, n).Some?
    ensures var (step, iteration) := Position(w, start, env, n).value;
      At(w, order, step, iteration) && Fuel(w, order, step, iteration) + n <= Fuel(w, order, start, 0)
  {
    if n > 0 {
      FuelSpent(w, order, start, env, n - 1);
      var (step, iteration) := Position(w, start, env, n - 1).value;
      AdvanceDescends(w, order, step, iteration, env(n - 1));
    }
  }

  lemma GuidedTasksEnd(w: Workflow, order: seq<string>, start: Step, env: nat -> Outcome)
    requires At(w, order, start, 0)
    ensures Ends(w, start, env)
  {
    var n := Fuel(w, order, start, 0) + 1;
    if Position(w, start, env, n).Some? {
      FuelSpent(w, order, start, env, n);
    }
  }

  // ---- Going round a cycle ----

  // An outcome that makes a task on step `a` go on at step `b`.
  lemma InlineIsMove(w: Workflow, a: string, b: string) returns (outcome: Outcome)
    requires Inline(w, a, b)
    ensures Advance(w, GetStep(w.steps, a).value, 0, outcome) == Continue(GetStep(w.steps, b).value, 0)
  {
    var step := GetStep(w.steps, a).value;
    if step.onError == Goto(b) {
      outcome := ToolErr;
    } else {
      var eval := FollowBy(step.edges, b);
      outcome := ToolOk((c: string) => Some(true), eval);
      assert AfterSuccess(w, step, eval) == Continue(GetStep(w.steps, b).value, 0);
    }
  }

  ghost function MoveAlong(w: Workflow, a: string, b: string): Outcome {
    if Inline(w, a, b) then
      MoveExists(w, a, b);
      var outcome :| Advance(w, GetStep(w.steps, a).value, 0, outcome) == Continue(GetStep(w.steps, b).value, 0);
      outcome
    else Cancelled
  }

  lemma MoveExists(w: Workflow, a: string, b: string)
    requires Inline(w, a, b)
    ensures exists outcome :: Advance(w, GetStep(w.steps, a).value, 0, outcome) == Continue(GetStep(w.steps, b).value, 0)
  {
    var outcome := InlineIsMove(w, a, b);
  }

  lemma MoveAlongMoves(w: Workflow, a: string, b: string)
    requires Inline(w, a, b)
    ensures Advance(w, GetStep(w.steps, a).value, 0, MoveAlong(w, a, b)) == Continue(GetStep(w.steps, b).value, 0)
  {
  }

  // Position `n` on a cycle that is walked for ever.
  function Around(p: seq<string>, n: nat): (at: nat)
    requires |p| >= 2
    ensures at < |p| - 1
  {
    if n == 0 || Around(p, n - 1) + 1 == |p| - 1 then 0 else Around(p, n - 1) + 1
  }

  ghost function Circling(w: Workflow, p: seq<string>): nat -> Outcome
    requires |p| >= 2
  {
    (n: nat) => MoveAlong(w, p[Around(p, n)], p[Around(p, n) + 1])
  }

  function StepOn(w: Workflow, p: seq<string>, n: nat): Option<Step>
    requires |p| >= 2
  {
    GetStep(w.steps, p[Around(p, n)])
  }

  lemma {:induction false} CirclesOn(w: Workflow, p: seq<string>, n: nat)
    requires IsCycle(InlineGraph(w), p)
    ensures StepOn(w, p, 0).Some? && StepOn(w, p, n).Some?
    ensures Position(w, StepOn(w, p, 0).value, Circling(w, p), n) == Some((StepOn(w, p, n).value, 0))
  {
    CycleSteps(w, p, 0);
    if n > 0 {
      var k := n - 1;
      CirclesOn(w, p, k);
      OnceMore(w, p, k);
      GoneOn(w, StepOn(w, p, 0).value, Circling(w, p), k, StepOn(w, p, k).value, StepOn(w, p, k + 1).value);
    }
  }

  lemma GoneOn(w: Workflow, start: Step, env: nat -> Outcome, n: nat, step: Step, next: Step)
    requires Position(w, start, env, n) == Some((step, 0)) && Advance(w, step, 0, env(n)) == Continue(next, 0)
    ensures Position(w, start, env, n + 1) == Some((next, 0))
  {
  }

  // One turn in the circling environment leads to the next position.
  lemma OnceMore(w: Workflow, p: seq<string>, n: nat)
    requires IsCycle(InlineGraph(w), p)
    ensures StepOn(w, p, n).Some? && StepOn(w, p, n + 1).Some?
    ensures Advance(w, StepOn(w, p, n).value, 0, Circling(w, p)(n)) == Continue(StepOn(w, p, n + 1).value, 0)
  {
    var at := Around(p, n);
    CycleSteps(w, p, at);
    MoveAlongMoves(w, p[at], p[at + 1]);
    AroundNext(p, n);
  }

  lemma AroundNext(p: seq<string>, n: nat)
    requires |p| >= 2 && p[0] == p[|p| - 1]
    ensures p[Around(p, n) + 1] == p[Around(p, n + 1)]
  {
  }

  lemma CycleSteps(w: Workflow, p: seq<string>, i: nat)
    requires IsCycle(InlineGraph(w), p) && i < |p| - 1
    ensures Inline(w, p[i], p[i + 1]) && HasStep(w, p[i])
  {
    assert Edge(InlineGraph(w), p[i], p[i + 1]);
    InlineEdgeIff(w, p[i], p[i + 1]);
  }

  /** Round a cycle of the inline graph there is an environment in which a task never finishes. */
  lemma CycleNeverEnds(w: Workflow) returns (start: Step, env: nat -> Outcome)
    requires Cyclic(InlineGraph(w))
    ensures GetStep(w.steps, start.id) == Some(start)
    ensures forall n :: Position(w, start, env, n).Some?
  {
    var p :| IsCycle(InlineGraph(w), p);
    CycleSteps(w, p, 0);
    start, env := GetStep(w.steps, p[0]).value, Circling(w, p);
    forall n ensures Position(w, start, env, n).Some? {
      CirclesOn(w, p, n);
    }
  }

  /** Every task of a workflow ends in every environment if and only if its inline graph is acyclic. */
  lemma TasksEndIff(w: Workflow)
    ensures EveryTaskEnds(w) <==> !Cyclic(InlineGraph(w))
  {
    if Cyclic(InlineGraph(w)) {
      var start, env := CycleNeverEnds(w);
      assert !Ends(w, start, env);
    } else {
      var order := AcyclicIsGuided(w);
      forall id: string, env: nat -> Outcome | HasStep(w, id) ensures Ends(w, GetStep(w.steps, id).value, env) {
        GuidedTasksEnd(w, order, GetStep(w.steps, id).value, env);
      }
    }
  }

  // ---- What the schema validator and the workflow's own validation give ----

  lemma InlineInFlow(schema: WorkflowSchema, w: Workflow, a: string, b: string)
    requires CompiledFrom(schema, w) && Inline(w, a, b)
    ensures Edge(FlowGraph(schema.nodes), a, b)
  {
    var i :| 0 <= i < |w.steps| && w.steps[i] == GetStep(w.steps, a).value;
    var node := schema.nodes[i].node;
    assert StepFrom(schema, schema.nodes[i], w.steps[i]);
    FlowGraphAt(schema.nodes, i);
    if w.steps[i].onError == Goto(b) {
      GotoIsSuccessor(node);
    } else {
      FollowedIsTarget(w.steps[i].edges, b);
      EdgeTargetsAreSuccessors(node, b);
    }
  }

  /** What the schema validator proved acyclic is all a task of the compiled workflow can follow. */
  lemma AcceptedIsInlineAcyclic(schema: WorkflowSchema, w: Workflow)
    requires Accepted(schema) && CompiledFrom(schema, w)
    ensures !Cyclic(InlineGraph(w)) && EveryTaskEnds(w)
  {
    forall a, b | Edge(InlineGraph(w), a, b) ensures Edge(FlowGraph(schema.nodes), a, b) {
      InlineEdgeIff(w, a, b);
      InlineInFlow(schema, w, a, b);
    }
    SubgraphAcyclic(InlineGraph(w), FlowGraph(schema.nodes));
    TasksEndIff(w);
  }

  lemma CompiledWorkflowIsGuided(schema: WorkflowSchema, w: Workflow) returns (order: seq<string>)
    requires Accepted(schema) && CompiledFrom(schema, w)
    ensures Guides(w, order)
  {
    AcceptedIsInlineAcyclic(schema, w);
    order := AcyclicIsGuided(w);
  }

  /**
    The workflow's own validation looks at step edges only: with distinct ids and no error jump
    it is enough, because then every inline move is a step edge.
   */
  lemma ValidWithoutJumpsEnds(w: Workflow)
    requires WellFormed(w)
    requires forall i, j :: 0 <= i < j < |w.steps| ==> w.steps[i].id != w.steps[j].id
    requires forall i :: 0 <= i < |w.steps| ==> !w.steps[i].onError.Goto?
    ensures EveryTaskEnds(w)
  {
    forall a, b | Edge(InlineGraph(w), a, b) ensures Edge(Adjacency(w.steps), a, b) {
      InlineEdgeIff(w, a, b);
      var i :| 0 <= i < |w.steps| && w.steps[i] == GetStep(w.steps, a).value;
      FollowedIsTarget(w.steps[i].edges, b);
      AdjacencyOf(w.steps, i);
    }
    SubgraphAcyclic(InlineGraph(w), Adjacency(w.steps));
    TasksEndIff(w);
  }

  lemma {:induction false} AdjacencyOf(steps: seq<Step>, i: nat)
    requires i < |steps| && forall k, j :: 0 <= k < j < |steps| ==> steps[k].id != steps[j].id
    ensures steps[i].id in Adjacency(steps) && Adjacency(steps)[steps[i].id] == StepTargets(steps[i].edges)
    decreases |steps|
  {
    if i < |steps| - 1 {
      AdjacencyOf(steps[..|steps| - 1], i);
    }
  }

  /** With an error jump it is not: a step that jumps to itself on error passes and can go on for ever. */
  lemma OwnValidationMissesErrorLoops() returns (w: Workflow, step: Step)
    ensures WellFormed(w) && GetStep(w.steps, w.entry) == Some(step)
    ensures Advance(w, step, 0, ToolErr) == Continue(step, 0)
    ensures !EveryTaskEnds(w)
  {
    step := Step("a", "echo", [], [StepEdge(Return, None, 0)], [], All, Goto("a"), None, None, None);
    w := Workflow("w", "a", [step], []);
    var g := Adjacency(w.steps);
    assert StepTargets(step.edges) == [] by {
      assert step.edges[1..] == [];
    }
    assert w.steps[..|w.steps| - 1] == [];
    assert Adjacency([]) == map[];
    assert g == map["a" := []];
    assert Settled(g, ["a"]);
    AllSettledAcyclic(g, ["a"]);
    assert step.edges[0].target.Return?;
    assert Returns(w.steps[0]);
    InlineEdgeIff(w, "a", "a");
    assert IsCycle(InlineGraph(w), ["a", "a"]);
    TasksEndIff(w);
  }
}
