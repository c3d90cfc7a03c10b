/**
  Where a task may go on inline, read off the steps alone: an error jump to a known step, or a
  target the edges can single out that waits for at most one dependency.
 */
module InlineFlow {
  import opened Wrappers
  import opened Graphs
  import opened Workflows
  import opened Compiler
  import opened Routing

  // ---- When edges can evaluate to one target alone ----

  // An edge as the walk sees it: its condition cleaned of braces.
  datatype Rule = Rule(condition: Option<string>, target: EdgeTarget)

  function RuleOf(e: StepEdge): Rule {
    Rule(if e.condition.Some? then Some(CleanCondition(e.condition.value)) else None, e.target)
  }

  function Rules(edges: seq<StepEdge>): (rules: seq<Rule>)
    ensures |rules| == |edges| && forall i :: 0 <= i < |edges| ==> rules[i] == RuleOf(edges[i])
  {
    seq(|edges|, i requires 0 <= i < |edges| => RuleOf(edges[i]))
  }

  function PickFrom(rules: seq<Rule>, eval: Eval, i: nat): Option<seq<EdgeTarget>>
    requires i <= |rules|
    decreases |rules| - i
  {
    if i == |rules| then Some([])
    else
      match rules[i].condition
      case None => Prepend([rules[i].target], PickFrom(rules, eval, i + 1))
      case Some(c) =>
        match eval(c)
        case None => None
        case Some(holds) => if holds then Some([rules[i].target]) else PickFrom(rules, eval, i + 1)
  }

  lemma {:induction false} ChoosePicks(edges: seq<StepEdge>, eval: Eval, i: nat)
    requires i <= |edges|
    ensures ChooseFrom(edges, eval, i) == PickFrom(Rules(edges), eval, i)
    decreases |edges| - i
  {
    if i < |edges| {
      ChoosePicks(edges, eval, i + 1);
    }
  }

  // The one unconditional edge: taken when every condition is false.
  predicate OnlyDefault(rules: seq<Rule>, d: nat) {
    d < |rules| && rules[d].condition.None? && forall j :: 0 <= j < |rules| && j != d ==> rules[j].condition.Some?
  }

  // A conditional edge before any unconditional one, whose condition is not among those that
  // have to be false to get there.
  predicate CanComeFirst(rules: seq<Rule>, k: nat) {
    && k < |rules| && rules[k].condition.Some?
    && forall j :: 0 <= j < k ==> rules[j].condition.Some? && rules[j].condition != rules[k].condition
  }

  predicate Alone(rules: seq<Rule>, id: string) {
    exists k :: 0 <= k < |rules| && rules[k].target == ToStep(id) && (OnlyDefault(rules, k) || CanComeFirst(rules, k))
  }

  predicate MayFollow(edges: seq<StepEdge>, id: string) {
    Alone(Rules(SortByPriority(edges)), id)
  }

  function Never(): Eval {
    c => Some(false)
  }

  function Only(condition: string): Eval {
    c => Some(c == condition)
  }

  lemma {:induction false} AllFalse(rules: seq<Rule>, d: nat, i: nat)
    requires OnlyDefault(rules, d) && i <= |rules|
    ensures PickFrom(rules, Never(), i) == Some(if i <= d then [rules[d].target] else [])
    decreases |rules| - i
  {
    if i < |rules| {
      AllFalse(rules, d, i + 1);
      assert [rules[d].target] + [] == [rules[d].target];
    }
  }

  lemma {:induction false} FirstTrue(rules: seq<Rule>, k: nat, i: nat)
    requires CanComeFirst(rules, k) && i <= k
    ensures PickFrom(rules, Only(rules[k].condition.value), i) == Some([rules[k].target])
    decreases k - i
  {
    if i < k {
      FirstTrue(rules, k, i + 1);
    }
  }

  lemma {:induction false} NothingPicked(rules: seq<Rule>, eval: Eval, i: nat)
    requires i <= |rules| && PickFrom(rules, eval, i) == Some([])
    ensures forall j :: i <= j < |rules| ==> rules[j].condition.Some?
    decreases |rules| - i
  {
    if i < |rules| && rules[i].condition.Some? {
      NothingPicked(rules, eval, i + 1);
    }
  }

  // What a single target picked from position `i` on came from: the one unconditional edge
  // from there, or the first condition that holds.
  ghost predicate PickedAt(rules: seq<Rule>, eval: Eval, i: nat, k: nat) {
    && i <= k < |rules|
    && (forall j :: i <= j < k ==> rules[j].condition.Some? && eval(rules[j].condition.value) == Some(false))
    && (if rules[k].condition.Some? then eval(rules[k].condition.value) == Some(true)
        else forall j :: k < j < |rules| ==> rules[j].condition.Some?)
  }

  lemma {:induction false} OnePicked(rules: seq<Rule>, eval: Eval, i: nat, t: EdgeTarget) returns (k: nat)
    requires i <= |rules| && PickFrom(rules, eval, i) == Some([t])
    ensures PickedAt(rules, eval, i, k) && rules[k].target == t
    decreases |rules| - i
  {
    if rules[i].condition.None? {
      OneThenNothing(rules[i].target, PickFrom(rules, eval, i + 1).value, t);
      NothingPicked(rules, eval, i + 1);
      k := i;
    } else if eval(rules[i].condition.value) == Some(true) {
      k := i;
    } else {
      k := OnePicked(rules, eval, i + 1, t);
    }
  }

  lemma OneThenNothing(x: EdgeTarget, rest: seq<EdgeTarget>, t: EdgeTarget)
    requires [x] + rest == [t]
    ensures x == t && rest == []
  {
    assert ([x] + rest)[0] == x;
    assert |[x] + rest| == 1;
  }

  /** Edges can evaluate to one target alone exactly when the list says so. */
  lemma MayFollowIff(edges: seq<StepEdge>, id: string)
    ensures MayFollow(edges, id) <==> exists eval: Eval :: EdgeTargets(edges, eval) == Some([ToStep(id)])
  {
    if MayFollow(edges, id) {
      var eval := FollowBy(edges, id);
    }
    if eval: Eval :| EdgeTargets(edges, eval) == Some([ToStep(id)]) {
      SingleMayFollow(edges, eval, id);
    }
  }

  lemma SingleMayFollow(edges: seq<StepEdge>, eval: Eval, id: string)
    requires EdgeTargets(edges, eval) == Some([ToStep(id)])
    ensures MayFollow(edges, id)
  {
    var sorted := SortByPriority(edges);
    ChoosePicks(sorted, eval, 0);
    var k := OnePicked(Rules(sorted), eval, 0, ToStep(id));
    assert OnlyDefault(Rules(sorted), k) || CanComeFirst(Rules(sorted), k);
  }

  lemma FollowBy(edges: seq<StepEdge>, id: string) returns (eval: Eval)
    requires MayFollow(edges, id)
    ensures EdgeTargets(edges, eval) == Some([ToStep(id)])
  {
    var sorted := SortByPriority(edges);
    var rules := Rules(sorted);
    var k :| 0 <= k < |rules| && rules[k].target == ToStep(id) && (OnlyDefault(rules, k) || CanComeFirst(rules, k));
    if OnlyDefault(rules, k) {
      eval := Never();
      AllFalse(rules, k, 0);
    } else {
      eval := Only(rules[k].condition.value);
      FirstTrue(rules, k, 0);
    }
    ChoosePicks(sorted, eval, 0);
  }

  lemma FollowedIsTarget(edges: seq<StepEdge>, id: string)
    requires MayFollow(edges, id)
    ensures id in StepTargets(edges)
  {
    var eval := FollowBy(edges, id);
    TargetsAreEdges(edges, eval);
    assert ToStep(id) in EdgeTargets(edges, eval).value;
  }

  // ---- The inline graph ----

  // A task on this step may go on at step `id` without giving the scheduler a say.
  predicate GoesOn(w: Workflow, step: Step, id: string) {
    && HasStep(w, id)
    && (step.onError == Goto(id) || (MayFollow(step.edges, id) && |GetStep(w.steps, id).value.dependsOn| <= 1))
  }

  predicate Inline(w: Workflow, a: string, b: string) {
    HasStep(w, a) && GoesOn(w, GetStep(w.steps, a).value, b)
  }

  function InlineSuccessors(w: Workflow, step: Step, among: seq<Step>): (ids: seq<string>)
    ensures forall id :: id in ids <==> GoesOn(w, step, id) && exists i :: 0 <= i < |among| && among[i].id == id
  {
    if among == [] then []
    else
      var init, last := among[..|among| - 1], among[|among| - 1];
      assert forall i :: 0 <= i < |among| - 1 ==> init[i] == among[i];
      InlineSuccessors(w, step, init) + if GoesOn(w, step, last.id) then [last.id] else []
  }

  function InlineGraph(w: Workflow): Graph {
    map id | id in set i | 0 <= i < |w.steps| :: w.steps[i].id :: InlineSuccessors(w, GetStep(w.steps, id).value, w.steps)
  }

  lemma InlineEdgeIff(w: Workflow, a: string, b: string)
    ensures Edge(InlineGraph(w), a, b) <==> Inline(w, a, b)
  {
    assert a in InlineGraph(w) <==> HasStep(w, a);
    assert HasStep(w, b) <==> exists i :: 0 <= i < |w.steps| && w.steps[i].id == b;
  }
}
