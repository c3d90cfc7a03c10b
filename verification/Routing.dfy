/**
  Edge evaluation (`evaluate_edges_targets`) and what it makes of a compiled `then` block.

  A condition's value is supplied by `eval`, on the cleaned condition text; `None` is an
  evaluation error.
 */
module Routing {
  import opened Wrappers
  import opened Strings
  import opened Schema
  import opened Workflows
  import opened Compiler

  type Eval = string -> Option<bool>

  // Trim, drop one surrounding `{{ }}`, trim; without both braces the text is only trimmed.
  function CleanCondition(condition: string): string {
    var t := Trim(condition);
    if "{{" <= t && EndsWith(t[2..], "}}") then Trim(t[2..|t| - 2]) else Trim(condition)
  }

  // `sort_by_key(priority)`, which is stable.
  function InsertByPriority(e: StepEdge, sorted: seq<StepEdge>): (s: seq<StepEdge>)
    ensures multiset(s) == multiset(sorted) + multiset{e}
  {
    if sorted == [] || e.priority < sorted[0].priority then [e] + sorted
    else
      assert sorted == [sorted[0]] + sorted[1..];
      [sorted[0]] + InsertByPriority(e, sorted[1..])
  }

  function SortByPriority(edges: seq<StepEdge>): (s: seq<StepEdge>)
    ensures multiset(s) == multiset(edges)
  {
    if edges == [] then []
    else
      assert edges == edges[..|edges| - 1] + [edges[|edges| - 1]];
      InsertByPriority(edges[|edges| - 1], SortByPriority(edges[..|edges| - 1]))
  }

  // Targets collected from position `i`: unconditional edges accumulate, the first edge
  // whose condition holds ends the walk.
  function ChooseFrom(edges: seq<StepEdge>, eval: Eval, i: nat): Option<seq<EdgeTarget>>
    requires i <= |edges|
    decreases |edges| - i
  {
    if i == |edges| then Some([])
    else
      match edges[i].condition
      case Some(c) =>
        (match eval(CleanCondition(c))
         case None => None
         case Some(holds) => if holds then Some([edges[i].target]) else ChooseFrom(edges, eval, i + 1))
      case None => Prepend([edges[i].target], ChooseFrom(edges, eval, i + 1))
  }

  function EdgeTargets(edges: seq<StepEdge>, eval: Eval): Option<seq<EdgeTarget>> {
    match ChooseFrom(SortByPriority(edges), eval, 0)
    case None => None
    case Some(targets) => Some(if targets == [] then [Return] else targets)
  }

  function Prepend(targets: seq<EdgeTarget>, rest: Option<seq<EdgeTarget>>): Option<seq<EdgeTarget>> {
    if rest.None? then None else Some(targets + rest.value)
  }

  lemma PrependMore(targets: seq<EdgeTarget>, t: EdgeTarget, rest: Option<seq<EdgeTarget>>)
    ensures Prepend(targets, Prepend([t], rest)) == Prepend(targets + [t], rest)
  {
    if rest.Some? {
      assert targets + ([t] + rest.value) == (targets + [t]) + rest.value;
    }
  }

  lemma NoEdgesReturn(edges: seq<StepEdge>, eval: Eval)
    requires |edges| == 0
    ensures EdgeTargets(edges, eval) == Some([Return])
  {
    var sorted := SortByPriority(edges);
    assert |sorted| == 0;
    assert ChooseFrom(sorted, eval, 0) == Some([]);
  }

  method EvaluateEdgesTargets(edges: seq<StepEdge>, eval: Eval) returns (r: Option<seq<EdgeTarget>>)
    ensures r == EdgeTargets(edges, eval)
  {
    if edges == [] {
      NoEdgesReturn(edges, eval);
      return Some([Return]);
    }
    var branches := SortByPriority(edges);
    var targets := [];
    ghost var chosen := ChooseFrom(branches, eval, 0);
    assert Prepend(targets, chosen) == chosen by {
      if chosen.Some? {
        assert [] + chosen.value == chosen.value;
      }
    }
    for i := 0 to |branches|
      invariant chosen == Prepend(targets, ChooseFrom(branches, eval, i))
    {
      match branches[i].condition {
        case Some(c) =>
          var holds := eval(CleanCondition(c));
          if holds.None? {
            assert chosen == None;
            return None;
          }
          if holds.value {
            targets := targets + [branches[i].target];
            assert chosen == Some(targets);
            return Some(targets);
          }
        case None =>
          PrependMore(targets, branches[i].target, ChooseFrom(branches, eval, i + 1));
          targets := targets + [branches[i].target];
      }
    }
    assert targets + [] == targets;
    assert chosen == Some(targets);
    r := Some(if targets == [] then [Return] else targets);
  }

  // Every target comes from an edge, and there is at least one.
  lemma {:induction false} ChosenAreEdges(edges: seq<StepEdge>, eval: Eval, i: nat, t: EdgeTarget)
    requires i <= |edges| && ChooseFrom(edges, eval, i).Some? && t in ChooseFrom(edges, eval, i).value
    ensures exists k :: 0 <= k < |edges| && edges[k].target == t
    decreases |edges| - i
  {
    if edges[i].condition.None? {
      if t != edges[i].target {
        ChosenAreEdges(edges, eval, i + 1, t);
      }
    } else if !eval(CleanCondition(edges[i].condition.value)).value {
      ChosenAreEdges(edges, eval, i + 1, t);
    }
  }

  lemma {:induction false} ChosenAtMostAll(edges: seq<StepEdge>, eval: Eval, i: nat)
    requires i <= |edges| && ChooseFrom(edges, eval, i).Some?
    ensures |ChooseFrom(edges, eval, i).value| <= |edges| - i
    decreases |edges| - i
  {
    if i < |edges| {
      if edges[i].condition.None? || !eval(CleanCondition(edges[i].condition.value)).value {
        ChosenAtMostAll(edges, eval, i + 1);
      }
    }
  }

  lemma TargetsAreEdges(edges: seq<StepEdge>, eval: Eval)
    requires EdgeTargets(edges, eval).Some?
    ensures 1 <= |EdgeTargets(edges, eval).value| <= |edges| + 1
    ensures forall t :: t in EdgeTargets(edges, eval).value && t.ToStep? ==> t.id in StepTargets(edges)
  {
    var sorted := SortByPriority(edges);
    assert |sorted| == |multiset(sorted)| == |multiset(edges)| == |edges|;
    ChosenAtMostAll(sorted, eval, 0);
    forall t | t in EdgeTargets(edges, eval).value && t.ToStep? ensures t.id in StepTargets(edges) {
      ChosenAreEdges(sorted, eval, 0, t);
      var k :| 0 <= k < |sorted| && sorted[k].target == t;
      assert sorted[k] in multiset(edges);
      TargetHasEdge(edges, t.id);
    }
  }

  // ---- What conditional routing means in the source ----

  predicate AllTargeted(branches: seq<ThenBranch>) {
    forall k :: 0 <= k < |branches| ==> branches[k].Target().Some?
  }

  // A branch's condition as it is evaluated; `None` for an unconditional branch.
  function Condition(branch: ThenBranch): Option<string> {
    if BranchCondition(branch).None? then None else Some(CleanCondition(BranchCondition(branch).value))
  }

  // The first branch whose condition holds or that has none; `Return` when there is none.
  function FirstMatch(branches: seq<ThenBranch>, eval: Eval): Option<EdgeTarget>
    requires AllTargeted(branches)
  {
    if branches == [] then Some(Return)
    else
      var here := ToStep(branches[0].Target().value);
      match Condition(branches[0])
      case None => Some(here)
      case Some(c) =>
        match eval(c)
        case None => None
        case Some(holds) => if holds then Some(here) else FirstMatch(branches[1..], eval)
  }

  // What the executor collects, said on the branches.
  function Collected(branches: seq<ThenBranch>, eval: Eval): Option<seq<EdgeTarget>>
    requires AllTargeted(branches)
  {
    if branches == [] then Some([])
    else
      var here := ToStep(branches[0].Target().value);
      match Condition(branches[0])
      case None => Prepend([here], Collected(branches[1..], eval))
      case Some(c) =>
        match eval(c)
        case None => None
        case Some(holds) => if holds then Some([here]) else Collected(branches[1..], eval)
  }

  // The edge the `i`-th branch compiles to.
  function EdgeOf(branches: seq<ThenBranch>, i: nat): StepEdge
    requires AllTargeted(branches) && i < |branches|
  {
    StepEdge(ToStep(branches[i].Target().value), BranchCondition(branches[i]), i)
  }

  lemma {:induction false} BranchEdgeAt(branches: seq<ThenBranch>, from: nat)
    requires from <= |branches| && AllTargeted(branches)
    ensures |BranchEdges(branches, from)| == |branches| - from
    ensures forall k :: 0 <= k < |branches| - from ==> BranchEdges(branches, from)[k] == EdgeOf(branches, from + k)
    decreases |branches| - from
  {
    if from < |branches| {
      BranchEdgeAt(branches, from + 1);
      var rest := BranchEdges(branches, from + 1);
      var first := EdgeOf(branches, from);
      assert BranchEdges(branches, from) == [first] + rest;
      forall k | 0 < k < |branches| - from ensures ([first] + rest)[k] == EdgeOf(branches, from + k) {
        hide BranchEdges, EdgeOf;
        assert rest[k - 1] == EdgeOf(branches, from + 1 + (k - 1));
      }
    }
  }

  predicate Ascending(edges: seq<StepEdge>) {
    forall i, j :: 0 <= i < j < |edges| ==> edges[i].priority <= edges[j].priority
  }

  lemma {:induction false} InsertLast(e: StepEdge, sorted: seq<StepEdge>)
    requires forall i :: 0 <= i < |sorted| ==> sorted[i].priority <= e.priority
    ensures InsertByPriority(e, sorted) == sorted + [e]
  {
    if sorted != [] {
      InsertLast(e, sorted[1..]);
    }
  }

  // Edges already in priority order are walked in that order.
  lemma {:induction false} SortedStays(edges: seq<StepEdge>)
    requires Ascending(edges)
    ensures SortByPriority(edges) == edges
  {
    if edges != [] {
      SortedStays(edges[..|edges| - 1]);
      InsertLast(edges[|edges| - 1], edges[..|edges| - 1]);
    }
  }

  lemma {:induction false} ChosenIsCollected(edges: seq<StepEdge>, branches: seq<ThenBranch>, eval: Eval, i: nat)
    requires AllTargeted(branches) && i <= |edges| == |branches|
    requires forall k :: 0 <= k < |edges| ==>
      edges[k].target == ToStep(branches[k].Target().value) && edges[k].condition == BranchCondition(branches[k])
    ensures ChooseFrom(edges, eval, i) == Collected(branches[i..], eval)
    decreases |branches| - i
  {
    if i < |branches| {
      ChosenIsCollected(edges, branches, eval, i + 1);
      assert branches[i..][1..] == branches[i + 1..];
    }
  }

  // The targets a compiled conditional block yields.
  lemma BlockTargets(branches: seq<ThenBranch>, eval: Eval)
    requires AllTargeted(branches)
    ensures var c := Collected(branches, eval);
            EdgeTargets(BranchEdges(branches, 0), eval)
            == if c.None? then None else Some(if c.value == [] then [Return] else c.value)
  {
    var edges := BranchEdges(branches, 0);
    BranchEdgeAt(branches, 0);
    assert Ascending(edges);
    SortedStays(edges);
    ChosenIsCollected(edges, branches, eval, 0);
    assert branches[0..] == branches;
  }

  // Routing keeps the source meaning on this valuation: one target, the one meant.
  predicate KeepsMeaning(branches: seq<ThenBranch>, eval: Eval)
    requires AllTargeted(branches)
  {
    var meant := FirstMatch(branches, eval);
    EdgeTargets(BranchEdges(branches, 0), eval) == (if meant.None? then None else Some([meant.value]))
  }

  // A later branch can still be taken after the default at `d`: it is unconditional, or its
  // condition is not one of those that had to be false to get as far as `d`.
  predicate Escapes(branches: seq<ThenBranch>, d: nat, j: nat)
    requires d < j < |branches|
  {
    Condition(branches[j]).Some? ==>
      forall k :: 0 <= k < d ==> Condition(branches[k]) != Condition(branches[j])
  }

  // `d` is the first unconditional branch.
  predicate FirstDefault(branches: seq<ThenBranch>, d: nat) {
    d < |branches| && Condition(branches[d]).None? && forall k :: 0 <= k < d ==> Condition(branches[k]).Some?
  }

  predicate Ambiguous(branches: seq<ThenBranch>) {
    exists d, j :: 0 <= d < j < |branches| && FirstDefault(branches, d) && Escapes(branches, d, j)
  }

  lemma {:induction false} SkipFalse(branches: seq<ThenBranch>, eval: Eval, d: nat)
    requires AllTargeted(branches) && d <= |branches|
    requires forall k :: 0 <= k < d ==> Condition(branches[k]).Some? && eval(Condition(branches[k]).value) == Some(false)
    ensures Collected(branches, eval) == Collected(branches[d..], eval)
    ensures FirstMatch(branches, eval) == FirstMatch(branches[d..], eval)
  {
    if d > 0 {
      SkipFalse(branches[1..], eval, d - 1);
      assert branches[1..][d - 1..] == branches[d..];
    } else {
      assert branches[0..] == branches;
    }
  }

  lemma {:induction false} SomethingCollected(branches: seq<ThenBranch>, eval: Eval, j: nat)
    requires AllTargeted(branches) && j < |branches|
    requires forall c :: eval(c).Some?
    requires Condition(branches[j]).Some? ==> eval(Condition(branches[j]).value) == Some(true)
    ensures Collected(branches, eval).Some? && Collected(branches, eval).value != []
  {
    CollectedDefined(branches[1..], eval);
    if j > 0 {
      SomethingCollected(branches[1..], eval, j - 1);
    }
  }

  lemma {:induction false} CollectedDefined(branches: seq<ThenBranch>, eval: Eval)
    requires AllTargeted(branches) && forall c :: eval(c).Some?
    ensures Collected(branches, eval).Some?
  {
    if branches != [] {
      CollectedDefined(branches[1..], eval);
    }
  }

  // An ambiguous block has a valuation that sends control to two places at once.
  lemma AmbiguousBreaks(branches: seq<ThenBranch>, d: nat, j: nat) returns (eval: Eval)
    requires AllTargeted(branches) && d < j < |branches| && FirstDefault(branches, d) && Escapes(branches, d, j)
    ensures !KeepsMeaning(branches, eval)
  {
    var early := set k | 0 <= k < d && Condition(branches[k]).Some? :: Condition(branches[k]).value;
    eval := c => Some(c !in early);
    SkipFalse(branches, eval, d);
    assert branches[d..][1..] == branches[d + 1..];
    SomethingCollected(branches[d + 1..], eval, j - (d + 1));
    BlockTargets(branches, eval);
  }

  lemma {:induction false} NothingMore(branches: seq<ThenBranch>, eval: Eval)
    requires AllTargeted(branches)
    requires forall j :: 0 <= j < |branches| ==> Condition(branches[j]).Some? && eval(Condition(branches[j]).value) == Some(false)
    ensures Collected(branches, eval) == Some([])
  {
    if branches != [] {
      NothingMore(branches[1..], eval);
    }
  }

  // What is collected is the one target meant, or nothing when `Return` is meant.
  predicate Agree(branches: seq<ThenBranch>, eval: Eval)
    requires AllTargeted(branches)
  {
    match Collected(branches, eval)
    case None => FirstMatch(branches, eval).None?
    case Some(c) => |c| <= 1 && FirstMatch(branches, eval) == Some(if c == [] then Return else c[0])
  }

  lemma AgreeKeeps(branches: seq<ThenBranch>, eval: Eval)
    requires AllTargeted(branches) && Agree(branches, eval)
    ensures KeepsMeaning(branches, eval)
  {
    BlockTargets(branches, eval);
    var c := Collected(branches, eval);
    if c.Some? && c.value != [] {
      assert c.value == [c.value[0]];
    }
  }

  // Stop at the first condition that is not false, or at the default.
  lemma {:induction false} UpToDefault(branches: seq<ThenBranch>, eval: Eval, d: nat)
    requires AllTargeted(branches) && d <= |branches|
    requires forall k :: 0 <= k < d ==> Condition(branches[k]).Some?
    requires (forall k :: 0 <= k < d ==> eval(Condition(branches[k]).value) == Some(false)) ==> Agree(branches[d..], eval)
    ensures Agree(branches, eval)
    decreases |branches|, 1
  {
    hide Condition;
    if d == 0 {
      assert branches[0..] == branches;
    } else {
      assert Condition(branches[0]).Some?;
      if eval(Condition(branches[0]).value) == Some(false) {
        UpToDefaultTail(branches, eval, d);
        FalseBranchPasses(branches, eval);
      }
    }
  }

  lemma {:induction false} UpToDefaultTail(branches: seq<ThenBranch>, eval: Eval, d: nat)
    requires AllTargeted(branches) && 0 < d <= |branches|
    requires forall k :: 0 <= k < d ==> Condition(branches[k]).Some?
    requires eval(Condition(branches[0]).value) == Some(false)
    requires (forall k :: 0 <= k < d ==> eval(Condition(branches[k]).value) == Some(false)) ==> Agree(branches[d..], eval)
    ensures Agree(branches[1..], eval)
    decreases |branches|, 0
  {
    hide Condition, Agree;
    var rest := branches[1..];
    assert rest[d - 1..] == branches[d..];
    assert forall k :: 0 <= k < d - 1 ==> rest[k] == branches[k + 1];
    if forall k :: 0 <= k < d - 1 ==> eval(Condition(rest[k]).value) == Some(false) {
      assert forall k :: 0 < k < d ==> branches[k] == rest[k - 1];
    }
    UpToDefault(rest, eval, d - 1);
  }

  lemma FalseBranchPasses(branches: seq<ThenBranch>, eval: Eval)
    requires AllTargeted(branches) && branches != [] && Condition(branches[0]).Some?
    requires eval(Condition(branches[0]).value) == Some(false) && Agree(branches[1..], eval)
    ensures Agree(branches, eval)
  {
    hide Condition;
  }

  lemma DefaultAgrees(branches: seq<ThenBranch>, eval: Eval)
    requires AllTargeted(branches) && branches != [] && Condition(branches[0]).None?
    requires Collected(branches[1..], eval) == Some([])
    ensures Agree(branches, eval)
  {
    var here := ToStep(branches[0].Target().value);
    assert [here] + [] == [here];
    assert Prepend([here], Some([])) == Some([here]);
  }

  lemma UnambiguousKeeps(branches: seq<ThenBranch>, eval: Eval, d: nat)
    requires AllTargeted(branches) && !Ambiguous(branches)
    requires d == |branches| || FirstDefault(branches, d)
    requires forall k :: 0 <= k < d <= |branches| ==> Condition(branches[k]).Some?
    ensures KeepsMeaning(branches, eval)
  {
    if d < |branches| && forall k :: 0 <= k < d ==> eval(Condition(branches[k]).value) == Some(false) {
      var rest := branches[d + 1..];
      forall j | 0 <= j < |rest| ensures Condition(rest[j]).Some? && eval(Condition(rest[j]).value) == Some(false) {
        assert !Escapes(branches, d, d + 1 + j);
      }
      NothingMore(rest, eval);
      assert branches[d..][1..] == rest;
      DefaultAgrees(branches[d..], eval);
    }
    UpToDefault(branches, eval, d);
    AgreeKeeps(branches, eval);
  }

  function FindDefault(branches: seq<ThenBranch>, i: nat): (d: nat)
    requires i <= |branches| && forall k :: 0 <= k < i ==> Condition(branches[k]).Some?
    ensures d <= |branches| && forall k :: 0 <= k < d ==> Condition(branches[k]).Some?
    ensures d < |branches| ==> FirstDefault(branches, d)
    decreases |branches| - i
  {
    if i == |branches| || Condition(branches[i]).None? then i else FindDefault(branches, i + 1)
  }

  /**
    Compiling a conditional block and evaluating its edges takes exactly the branch the
    source means, on every valuation of the conditions, if and only if no branch can be
    taken after the first unconditional one.
   */
  lemma RoutingKeepsMeaningIff(branches: seq<ThenBranch>)
    requires AllTargeted(branches)
    ensures !Ambiguous(branches) <==> forall eval: Eval :: KeepsMeaning(branches, eval)
  {
    if Ambiguous(branches) {
      var d, j :| 0 <= d < j < |branches| && FirstDefault(branches, d) && Escapes(branches, d, j);
      var eval := AmbiguousBreaks(branches, d, j);
    } else {
      var d := FindDefault(branches, 0);
      forall eval: Eval ensures KeepsMeaning(branches, eval) {
        UnambiguousKeeps(branches, eval, d);
      }
    }
  }

  /** In particular: a node without `return` whose last branch alone may lack a condition. */
  lemma CompiledNodeRoutes(node: NodeSchema, eval: Eval)
    requires node.return_.None? && node.then_.Some? && node.then_.value.Conditional?
    requires AllTargeted(node.then_.value.branches)
    requires forall k :: 0 <= k < |node.then_.value.branches| - 1 ==> BranchCondition(node.then_.value.branches[k]).Some?
    ensures var meant := FirstMatch(node.then_.value.branches, eval);
            EdgeTargets(CompileEdges(node), eval) == if meant.None? then None else Some([meant.value])
  {
    var branches := node.then_.value.branches;
    UnambiguousKeeps(branches, eval, FindDefault(branches, 0));
    assert CompileEdges(node) == BranchEdges(branches, 0);
  }
}
