/**
  Where control goes from a node, said on its YAML block and carried through compilation and
  edge evaluation: every `then` form, with and without `return`, on every valuation.
 */
module CompiledRouting {
  import opened Wrappers
  import opened Strings
  import opened Schema
  import opened Workflows
  import opened Compiler
  import opened Routing
  import opened Graphs
  import opened Validator

  // ---- Reading the block ----

  // `then` wins over `goto`.
  predicate Leads(branch: ThenBranch, id: string) {
    branch.then_ == Some(id) || (branch.then_.None? && branch.goto_ == Some(id))
  }

  // A branch without a target takes no part in routing.
  predicate TakesPart(branch: ThenBranch) {
    branch.then_.Some? || branch.goto_.Some?
  }

  // `else` makes a branch unconditional, whatever its `when` says.
  predicate Asks(branch: ThenBranch, text: string) {
    !branch.else_ && branch.when_ == Some(text)
  }

  predicate IsDefault(branch: ThenBranch) {
    branch.else_ || branch.when_.None?
  }

  // The block names the node as a place to go.
  predicate Mentions(then_: Option<ThenBlock>, id: string) {
    match then_
    case None => false
    case Some(Unconditional(target)) => target == id
    case Some(Multiple(targets)) => id in targets
    case Some(Conditional(branches)) => exists i :: 0 <= i < |branches| && Leads(branches[i], id)
  }

  // ---- A condition's text ----

  /** Blanks and one pair of braces around a condition do not matter. */
  lemma ConditionText(a: string, pre: string, text: string, post: string, b: string)
    requires AllSpace(a) && AllSpace(b) && AllSpace(pre) && AllSpace(post) && Tight(text)
    ensures CleanCondition(a + ("{{" + (pre + text + post) + "}}") + b) == text
    ensures !("{{" <= text) ==> CleanCondition(a + text + b) == text
  {
    TrimDrops(pre, text, post);
    TrimDrops(a, text, b);
    hide Trim, Tight, AllSpace;
    BracesTight(pre + text + post);
    TrimDrops(a, "{{" + (pre + text + post) + "}}", b);
    InsideBraces(pre + text + post);
  }

  lemma InsideBraces(mid: string)
    ensures var t := "{{" + mid + "}}"; "{{" <= t && EndsWith(t[2..], "}}") && t[2..|t| - 2] == mid
  {
    var t := "{{" + mid + "}}";
    assert t[2..] == mid + "}}";
  }

  lemma BracesTight(mid: string)
    ensures Tight("{{" + mid + "}}")
  {
    var t := "{{" + mid + "}}";
    assert t[0] == '{' && t[|t| - 1] == '}';
    assert !IsSpace('{') && !IsSpace('}');
  }

  // ---- The walk over sorted edges ----

  // Every condition before position `k` is false.
  predicate FalseBefore(edges: seq<StepEdge>, eval: Eval, k: nat)
    requires k <= |edges|
  {
    forall j :: 0 <= j < k && edges[j].condition.Some? ==> eval(CleanCondition(edges[j].condition.value)) == Some(false)
  }

  // The unconditional targets before position `k`, in order.
  function Defaults(edges: seq<StepEdge>, k: nat): seq<EdgeTarget>
    requires k <= |edges|
  {
    if k == 0 then []
    else Defaults(edges, k - 1) + if edges[k - 1].condition.None? then [edges[k - 1].target] else []
  }

  function OrReturn(targets: seq<EdgeTarget>): seq<EdgeTarget> {
    if targets == [] then [Return] else targets
  }

  // The walk stops at `k`: at the end, at a condition that holds, or at one that fails.
  ghost predicate StopsAt(edges: seq<StepEdge>, eval: Eval, k: nat, r: Option<seq<EdgeTarget>>) {
    && k <= |edges| && FalseBefore(edges, eval, k)
    && if k == |edges| then r == Some(OrReturn(Defaults(edges, k)))
       else
         && edges[k].condition.Some?
         && match eval(CleanCondition(edges[k].condition.value))
            case None => r == None
            case Some(holds) => holds && r == Some(Defaults(edges, k) + [edges[k].target])
  }

  lemma {:induction false} WalkFrom(edges: seq<StepEdge>, eval: Eval, i: nat) returns (k: nat)
    requires i <= |edges| && FalseBefore(edges, eval, i)
    ensures i <= k <= |edges| && FalseBefore(edges, eval, k)
    ensures k < |edges| ==> edges[k].condition.Some? && eval(CleanCondition(edges[k].condition.value)) != Some(false)
    ensures Prepend(Defaults(edges, i), ChooseFrom(edges, eval, i))
         == if k == |edges| then Some(Defaults(edges, k))
            else match eval(CleanCondition(edges[k].condition.value))
                 case None => None
                 case Some(_) => Some(Defaults(edges, k) + [edges[k].target])
    decreases |edges| - i
  {
    hide CleanCondition;
    if i == |edges| {
      k := i;
      assert Defaults(edges, i) + [] == Defaults(edges, i);
    } else if edges[i].condition.None? {
      k := WalkFrom(edges, eval, i + 1);
      PrependMore(Defaults(edges, i), edges[i].target, ChooseFrom(edges, eval, i + 1));
    } else if eval(CleanCondition(edges[i].condition.value)) == Some(false) {
      assert Defaults(edges, i + 1) == Defaults(edges, i);
      k := WalkFrom(edges, eval, i + 1);
    } else {
      k := i;
    }
  }

  /** What edges in walking order evaluate to, on every valuation. */
  lemma EdgesGive(edges: seq<StepEdge>, eval: Eval) returns (k: nat)
    requires Ascending(edges)
    ensures StopsAt(edges, eval, k, EdgeTargets(edges, eval))
  {
    SortedStays(edges);
    k := WalkFrom(edges, eval, 0);
    var chosen := ChooseFrom(edges, eval, 0);
    assert chosen.Some? ==> [] + chosen.value == chosen.value;
  }

  // ---- Every form of a node ----

  // What a `return` adds in front.
  function Lead(node: NodeSchema): seq<EdgeTarget> {
    if node.return_.Some? then [Return] else []
  }

  function ToSteps(ids: seq<string>): (targets: seq<EdgeTarget>)
    ensures |targets| == |ids| && forall i :: 0 <= i < |ids| ==> targets[i] == ToStep(ids[i])
  {
    seq(|ids|, i requires 0 <= i < |ids| => ToStep(ids[i]))
  }

  lemma {:induction false} PlainDefaults(edges: seq<StepEdge>, k: nat)
    requires k <= |edges| && forall i :: 0 <= i < |edges| ==> edges[i].condition.None?
    ensures |Defaults(edges, k)| == k && forall i :: 0 <= i < k ==> Defaults(edges, k)[i] == edges[i].target
  {
    if k > 0 {
      PlainDefaults(edges, k - 1);
    }
  }

  // Unconditional edges of one priority give all their targets, in order.
  lemma PlainEdgesGive(edges: seq<StepEdge>, eval: Eval, targets: seq<EdgeTarget>)
    requires |targets| == |edges|
    requires forall i :: 0 <= i < |edges| ==> edges[i] == StepEdge(targets[i], None, 0)
    ensures EdgeTargets(edges, eval) == Some(OrReturn(targets))
  {
    var k := EdgesGive(edges, eval);
    PlainDefaults(edges, |edges|);
    assert Defaults(edges, |edges|) == targets;
  }

  /**
    A node's unconditional forms: `then: b` leads to `b`, a list to all its targets in order, no
    `then` to `Return`; a `return` puts `Return` in front.  No condition is looked at.
   */
  lemma PlainNodeGives(node: NodeSchema, eval: Eval)
    ensures node.then_.None? ==> EdgeTargets(CompileEdges(node), eval) == Some([Return])
    ensures node.then_.Some? && node.then_.value.Unconditional? ==>
              EdgeTargets(CompileEdges(node), eval) == Some(Lead(node) + [ToStep(node.then_.value.target)])
    ensures node.then_.Some? && node.then_.value.Multiple? ==>
              EdgeTargets(CompileEdges(node), eval) == Some(OrReturn(Lead(node) + ToSteps(node.then_.value.targets)))
  {
    var edges := CompileEdges(node);
    if node.then_.None? {
      PlainEdgesGive(edges, eval, Lead(node));
    } else if node.then_.value.Unconditional? {
      PlainEdgesGive(edges, eval, Lead(node) + [ToStep(node.then_.value.target)]);
    } else if node.then_.value.Multiple? {
      PlainEdgesGive(edges, eval, Lead(node) + ToSteps(node.then_.value.targets));
    }
  }

  // Of the branches before position `k`: the targets of those that take part and ask nothing.
  function DefaultBranches(branches: seq<ThenBranch>, k: nat): seq<EdgeTarget>
    requires k <= |branches|
  {
    if k == 0 then []
    else
      var b := branches[k - 1];
      DefaultBranches(branches, k - 1)
      + if !IsDefault(b) then []
        else if b.then_.Some? then [ToStep(b.then_.value)]
        else if b.goto_.Some? then [ToStep(b.goto_.value)]
        else []
  }

  // All conditions asked before branch `k` are false.
  ghost predicate PassedOver(branches: seq<ThenBranch>, eval: Eval, k: nat)
    requires k <= |branches|
  {
    forall j, text :: 0 <= j < k && TakesPart(branches[j]) && Asks(branches[j], text) ==>
      eval(CleanCondition(text)) == Some(false)
  }

  /**
    The block is read to `k`: to the end, to a branch whose condition holds, or to one whose
    condition cannot be evaluated.
   */
  ghost predicate ReadTo(node: NodeSchema, branches: seq<ThenBranch>, eval: Eval, k: nat, r: Option<seq<EdgeTarget>>) {
    && k <= |branches| && PassedOver(branches, eval, k)
    && if k == |branches| then r == Some(OrReturn(Lead(node) + DefaultBranches(branches, k)))
       else
         exists text, id :: Asks(branches[k], text) && Leads(branches[k], id)
           && match eval(CleanCondition(text))
              case None => r == None
              case Some(holds) => holds && r == Some(Lead(node) + DefaultBranches(branches, k) + [ToStep(id)])
  }

  // The walk over the branches' own edges stopped at `k`, having collected `walk`.
  ghost predicate WalkedTo(branches: seq<ThenBranch>, eval: Eval, k: nat, walk: Option<seq<EdgeTarget>>) {
    && k <= |branches| && PassedOver(branches, eval, k)
    && if k == |branches| then walk == Some(DefaultBranches(branches, k))
       else
         exists text, id :: Asks(branches[k], text) && Leads(branches[k], id)
           && match eval(CleanCondition(text))
              case None => walk == None
              case Some(holds) => holds && walk == Some(DefaultBranches(branches, k) + [ToStep(id)])
  }

  lemma {:induction false} BranchesFrom(branches: seq<ThenBranch>, eval: Eval, from: nat) returns (k: nat)
    requires from <= |branches| && PassedOver(branches, eval, from)
    ensures WalkedTo(branches, eval, k, Prepend(DefaultBranches(branches, from), ChooseFrom(BranchEdges(branches, from), eval, 0)))
    decreases |branches| - from
  {
    hide CleanCondition;
    var before := DefaultBranches(branches, from);
    if from == |branches| {
      k := from;
      assert before + [] == before;
    } else if !TakesPart(branches[from]) {
      assert BranchEdges(branches, from) == BranchEdges(branches, from + 1);
      assert DefaultBranches(branches, from + 1) == before;
      k := BranchesFrom(branches, eval, from + 1);
    } else {
      k := BranchTaken(branches, eval, from);
    }
  }

  lemma {:induction false} BranchTaken(branches: seq<ThenBranch>, eval: Eval, from: nat) returns (k: nat)
    requires from < |branches| && PassedOver(branches, eval, from) && TakesPart(branches[from])
    ensures WalkedTo(branches, eval, k, Prepend(DefaultBranches(branches, from), ChooseFrom(BranchEdges(branches, from), eval, 0)))
    decreases |branches| - from, 0
  {
    hide CleanCondition, ChooseFrom;
    var before, b, rest := DefaultBranches(branches, from), branches[from], BranchEdges(branches, from + 1);
    var id := b.Target().value;
    var edge := StepEdge(ToStep(id), BranchCondition(b), from);
    assert Leads(b, id);
    assert BranchEdges(branches, from) == [edge] + rest;
    FirstEdge(edge, rest, eval);
    if IsDefault(b) {
      assert DefaultBranches(branches, from + 1) == before + [ToStep(id)];
      PrependMore(before, ToStep(id), ChooseFrom(rest, eval, 0));
      k := BranchesFrom(branches, eval, from + 1);
    } else {
      assert Asks(b, b.when_.value);
      if eval(CleanCondition(b.when_.value)) == Some(false) {
        assert DefaultBranches(branches, from + 1) == before;
        k := BranchesFrom(branches, eval, from + 1);
      } else {
        k := from;
      }
    }
  }

  lemma FirstEdge(edge: StepEdge, rest: seq<StepEdge>, eval: Eval)
    ensures ChooseFrom([edge] + rest, eval, 0)
         == match edge.condition
            case Some(c) =>
              (match eval(CleanCondition(c))
               case None => None
               case Some(holds) => if holds then Some([edge.target]) else ChooseFrom(rest, eval, 0))
            case None => Prepend([edge.target], ChooseFrom(rest, eval, 0))
  {
    hide CleanCondition;
    WalkShifts(edge, rest, eval, 0);
  }

  lemma {:induction false} WalkShifts(edge: StepEdge, rest: seq<StepEdge>, eval: Eval, i: nat)
    requires i <= |rest|
    ensures ChooseFrom([edge] + rest, eval, i + 1) == ChooseFrom(rest, eval, i)
    decreases |rest| - i
  {
    hide CleanCondition;
    if i < |rest| {
      WalkShifts(edge, rest, eval, i + 1);
    }
  }

  lemma {:induction false} BranchPriorities(branches: seq<ThenBranch>, from: nat)
    requires from <= |branches|
    ensures Ascending(BranchEdges(branches, from))
    ensures forall i :: 0 <= i < |BranchEdges(branches, from)| ==> BranchEdges(branches, from)[i].priority >= from
    decreases |branches| - from
  {
    if from < |branches| {
      BranchPriorities(branches, from + 1);
    }
  }

  lemma NodePriorities(node: NodeSchema)
    requires node.then_.Some? && node.then_.value.Conditional?
    ensures Ascending(CompileEdges(node))
  {
    BranchPriorities(node.then_.value.branches, 0);
  }

  // Prepending twice.
  lemma LeadFirst(lead: seq<EdgeTarget>, rest: Option<seq<EdgeTarget>>)
    ensures rest.Some? ==> Prepend(lead, rest) == Some(lead + rest.value)
    ensures rest.None? ==> Prepend(lead, rest) == None
    ensures Prepend([], rest) == rest
  {
    if rest.Some? {
      assert [] + rest.value == rest.value;
    }
  }

  lemma NodeChooses(node: NodeSchema, branches: seq<ThenBranch>, eval: Eval)
    requires node.then_ == Some(Conditional(branches))
    ensures ChooseFrom(CompileEdges(node), eval, 0) == Prepend(Lead(node), ChooseFrom(BranchEdges(branches, 0), eval, 0))
  {
    hide ChooseFrom, BranchEdges;
    var rest := BranchEdges(branches, 0);
    if node.return_.Some? {
      FirstEdge(StepEdge(Return, None, 0), rest, eval);
    } else {
      assert CompileEdges(node) == [] + rest == rest;
      LeadFirst([], ChooseFrom(rest, eval, 0));
    }
  }

  // What is collected, once `return` is put in front and nothing means `Return`.
  lemma LeadRead(node: NodeSchema, branches: seq<ThenBranch>, eval: Eval, k: nat, walk: Option<seq<EdgeTarget>>)
    requires WalkedTo(branches, eval, k, walk)
    ensures ReadTo(node, branches, eval, k, if walk.None? then None else Some(OrReturn(Lead(node) + walk.value)))
  {
    hide CleanCondition, DefaultBranches, PassedOver;
    if k < |branches| {
      var text, id :| Asks(branches[k], text) && Leads(branches[k], id)
        && match eval(CleanCondition(text))
           case None => walk == None
           case Some(holds) => holds && walk == Some(DefaultBranches(branches, k) + [ToStep(id)]);
      assert Lead(node) + (DefaultBranches(branches, k) + [ToStep(id)]) == Lead(node) + DefaultBranches(branches, k) + [ToStep(id)];
    }
  }

  lemma TargetsOfWalk(node: NodeSchema, branches: seq<ThenBranch>, eval: Eval)
    requires node.then_ == Some(Conditional(branches))
    ensures var walk := ChooseFrom(BranchEdges(branches, 0), eval, 0);
      EdgeTargets(CompileEdges(node), eval) == if walk.None? then None else Some(OrReturn(Lead(node) + walk.value))
  {
    hide CompileEdges, SortByPriority, ChooseFrom, BranchEdges;
    NodePriorities(node);
    SortedStays(CompileEdges(node));
    NodeChooses(node, branches, eval);
    LeadFirst(Lead(node), ChooseFrom(BranchEdges(branches, 0), eval, 0));
  }

  /**
    A conditional block, with or without `return`, with branches that name no target, with any
    number of unconditional ones: what the compiled edges evaluate to is what reading the block
    from the top gives.
   */
  lemma ConditionalNodeGives(node: NodeSchema, eval: Eval) returns (k: nat)
    requires node.then_.Some? && node.then_.value.Conditional?
    ensures ReadTo(node, node.then_.value.branches, eval, k, EdgeTargets(CompileEdges(node), eval))
  {
    hide ReadTo, WalkedTo, EdgeTargets, ChooseFrom, BranchEdges, CompileEdges;
    var branches := node.then_.value.branches;
    var walk := ChooseFrom(BranchEdges(branches, 0), eval, 0);
    k := BranchesFrom(branches, eval, 0);
    LeadFirst([], walk);
    LeadRead(node, branches, eval, k, walk);
    TargetsOfWalk(node, branches, eval);
  }

  // ---- Nothing is lost ----

  predicate HasEdgeTo(edges: seq<StepEdge>, id: string) {
    exists i :: 0 <= i < |edges| && edges[i].target == ToStep(id)
  }

  lemma {:induction false} BranchHasEdge(branches: seq<ThenBranch>, from: nat, i: nat, id: string)
    requires from <= i < |branches| && Leads(branches[i], id)
    ensures HasEdgeTo(BranchEdges(branches, from), id)
    decreases i - from
  {
    var edges, rest := BranchEdges(branches, from), BranchEdges(branches, from + 1);
    if from == i {
      assert edges[0].target == ToStep(id);
    } else {
      BranchHasEdge(branches, from + 1, i, id);
      var j :| 0 <= j < |rest| && rest[j].target == ToStep(id);
      assert edges[|edges| - |rest| + j] == rest[j];
    }
  }

  lemma {:induction false} BranchOfEdge(branches: seq<ThenBranch>, from: nat, id: string)
    requires from <= |branches| && HasEdgeTo(BranchEdges(branches, from), id)
    ensures exists i :: from <= i < |branches| && Leads(branches[i], id)
    decreases |branches| - from
  {
    var edges, rest := BranchEdges(branches, from), BranchEdges(branches, from + 1);
    var j :| 0 <= j < |edges| && edges[j].target == ToStep(id);
    if j < |edges| - |rest| {
      assert Leads(branches[from], id);
    } else {
      assert rest[j - (|edges| - |rest|)] == edges[j];
      BranchOfEdge(branches, from + 1, id);
    }
  }

  lemma ThenHasEdgeIff(then_: Option<ThenBlock>, id: string)
    ensures HasEdgeTo(ThenEdges(then_), id) <==> Mentions(then_, id)
  {
    match then_ {
      case None =>
      case Some(Unconditional(target)) =>
        assert ThenEdges(then_)[0].target == ToStep(target);
      case Some(Multiple(targets)) =>
        if id in targets {
          var i :| 0 <= i < |targets| && targets[i] == id;
          assert ThenEdges(then_)[i].target == ToStep(id);
        }
      case Some(Conditional(branches)) =>
        if i :| 0 <= i < |branches| && Leads(branches[i], id) {
          BranchHasEdge(branches, 0, i, id);
        }
        if HasEdgeTo(BranchEdges(branches, 0), id) {
          BranchOfEdge(branches, 0, id);
        }
    }
  }

  /** A node's compiled edges lead to exactly the nodes its `then` block names. */
  lemma EdgesAreMentions(node: NodeSchema, id: string)
    ensures HasEdgeTo(CompileEdges(node), id) <==> Mentions(node.then_, id)
  {
    ThenHasEdgeIff(node.then_, id);
    var edges, rest := CompileEdges(node), ThenEdges(node.then_);
    var shift := |edges| - |rest|;
    if i :| 0 <= i < |rest| && rest[i].target == ToStep(id) {
      assert edges[i + shift] == rest[i];
    }
    if i :| 0 <= i < |edges| && edges[i].target == ToStep(id) {
      assert rest[i - shift] == edges[i];
    }
  }

  /** So are the targets the validator walks. */
  lemma ThenTargetsAreMentions(then_: Option<ThenBlock>, id: string)
    ensures id in ThenTargets(then_) <==> Mentions(then_, id)
  {
    if then_.Some? && then_.value.Conditional? {
      BranchTargetsAre(then_.value.branches, id);
    }
  }

  lemma {:induction false} BranchTargetsAre(branches: seq<ThenBranch>, id: string)
    ensures id in BranchTargets(branches) <==> exists i :: 0 <= i < |branches| && Leads(branches[i], id)
  {
    if branches != [] {
      BranchTargetsAre(branches[1..], id);
      if i :| 0 <= i < |branches| && Leads(branches[i], id) {
        assert i > 0 ==> branches[1..][i - 1] == branches[i];
      }
    }
  }

  // ---- The two graphs ----

  /** The graph the schema validator searches: an edge wherever a `then` or `catch` leads. */
  lemma FlowEdgeIff(nodes: Nodes, a: string, b: string)
    ensures Edge(FlowGraph(nodes), a, b)
       <==> exists i :: 0 <= i < |nodes| && nodes[i].name == a
                        && (Mentions(nodes[i].node.then_, b) || CatchLeads(nodes[i].node.catch_, b))
  {
    hide Mentions, CatchLeads, ThenTargets, FlowGraph;
    forall i | 0 <= i < |nodes|
      ensures nodes[i].name in FlowGraph(nodes)
      ensures b in FlowGraph(nodes)[nodes[i].name] <==> Mentions(nodes[i].node.then_, b) || CatchLeads(nodes[i].node.catch_, b)
    {
      FlowGraphAt(nodes, i);
      ThenTargetsAreMentions(nodes[i].node.then_, b);
      CatchTargetsAre(nodes[i].node.catch_, b);
    }
  }

  lemma CatchTargetsAre(catch_: CatchBlock, id: string)
    ensures id in CatchTargets(catch_) <==> CatchLeads(catch_, id)
  {
    if catch_.CatchBranches? {
      CatchTargetsIff(catch_.branches, id);
    }
  }

  // The last step with the id, which has an edge to `b`.
  predicate LastLeads(steps: seq<Step>, a: string, b: string, i: int) {
    && 0 <= i < |steps| && steps[i].id == a && HasEdgeTo(steps[i].edges, b)
    && forall j :: i < j < |steps| ==> steps[j].id != a
  }

  lemma LastLeadsBefore(steps: seq<Step>, a: string, b: string, i: int)
    requires steps != [] && steps[|steps| - 1].id != a
    ensures LastLeads(steps, a, b, i) <==> LastLeads(steps[..|steps| - 1], a, b, i)
  {
    hide HasEdgeTo;
  }

  /** The one the workflow's own validation searches: the step edges of the last step with the id. */
  lemma {:induction false} StepEdgeIff(steps: seq<Step>, a: string, b: string)
    ensures Edge(Adjacency(steps), a, b) <==> exists i :: LastLeads(steps, a, b, i)
    decreases |steps|
  {
    if steps == [] {
      assert forall i :: !LastLeads(steps, a, b, i);
    } else {
      var n := |steps| - 1;
      StepTargetsIff(steps[n].edges, b);
      assert Adjacency(steps) == Adjacency(steps[..n])[steps[n].id := StepTargets(steps[n].edges)];
      if steps[n].id == a {
        assert forall i :: LastLeads(steps, a, b, i) ==> i == n;
        assert LastLeads(steps, a, b, n) <==> HasEdgeTo(steps[n].edges, b);
      } else {
        hide HasEdgeTo, LastLeads, Adjacency;
        StepEdgeIff(steps[..n], a, b);
        forall i ensures LastLeads(steps, a, b, i) <==> LastLeads(steps[..n], a, b, i) {
          LastLeadsBefore(steps, a, b, i);
        }
      }
    }
  }

  lemma StepTargetsIff(edges: seq<StepEdge>, id: string)
    ensures id in StepTargets(edges) <==> HasEdgeTo(edges, id)
  {
    TargetHasEdge(edges, id);
  }

  // ---- Errors ----

  // The branch reacts to an error: it says `else`, asks nothing, or asks what is plainly true.
  predicate Reacts(branch: CatchBranch) {
    branch.else_ || branch.when_ == None || branch.when_ == Some(JBool(true)) || branch.when_ == Some(JStr("true"))
  }

  lemma ReactsIff(branch: CatchBranch)
    ensures branch.IsMatch() <==> Reacts(branch)
  {
    if branch.when_.Some? && branch.when_.value.JStr? && branch.when_.value.s == "true" {
      assert branch.when_.value == JStr("true");
    }
  }

  // The first branch that reacts.
  predicate FirstReaction(branches: seq<CatchBranch>, i: int) {
    0 <= i < |branches| && Reacts(branches[i]) && forall j :: 0 <= j < i ==> !Reacts(branches[j])
  }

  /** What a reaction does: jump, skip, fall back to a value; anything else fails the step. */
  predicate ActionOf(branch: CatchBranch, action: ErrorAction) {
    if branch.then_.Some? then action == Goto(branch.then_.value)
    else
      match branch.do_
      case None => action == Fail
      case Some(d) =>
        match action
        case Skip => d == "skip" || d == "continue"
        case Fallback(value) => d == "fallback:" + value
        case Fail => d != "skip" && d != "continue" && !("fallback:" <= d)
        case Goto(_) => false
  }

  /** The compiled error action is that of the first branch that reacts, and `Fail` without one. */
  lemma {:induction false} ErrorActionIs(branches: seq<CatchBranch>)
    ensures (forall i :: 0 <= i < |branches| ==> !Reacts(branches[i])) ==> BranchesOnError(branches) == Fail
    ensures forall i :: FirstReaction(branches, i) ==> ActionOf(branches[i], BranchesOnError(branches))
    decreases |branches|
  {
    if branches == [] {
    } else if Reacts(branches[0]) {
      ReactsIff(branches[0]);
    } else {
      ReactsIff(branches[0]);
      hide Reacts, ActionOf;
      ErrorActionIs(branches[1..]);
      forall i: int | FirstReaction(branches, i) ensures ActionOf(branches[i], BranchesOnError(branches)) {
        assert FirstReaction(branches[1..], i - 1);
      }
      if forall i :: 0 <= i < |branches| ==> !Reacts(branches[i]) {
        assert forall i :: 0 <= i < |branches| - 1 ==> branches[1..][i] == branches[i + 1];
      }
    }
  }

  /** In both forms of `catch`. */
  lemma CatchGives(catch_: CatchBlock)
    ensures catch_.CatchAll? ==> CompileOnError(catch_) == Goto(catch_.target)
    ensures catch_.CatchBranches? ==>
              && ((forall i :: 0 <= i < |catch_.branches| ==> !Reacts(catch_.branches[i])) ==> CompileOnError(catch_) == Fail)
              && forall i :: FirstReaction(catch_.branches, i) ==> ActionOf(catch_.branches[i], CompileOnError(catch_))
  {
    if catch_.CatchBranches? {
      ErrorActionIs(catch_.branches);
    }
  }

  // ---- Edges in any order ----

  /** Sorting is by priority, keeps every edge, and keeps equal ones as they were. */
  lemma {:induction false} SortIsStable(edges: seq<StepEdge>, p: int)
    ensures Ascending(SortByPriority(edges)) && multiset(SortByPriority(edges)) == multiset(edges)
    ensures OfPriority(SortByPriority(edges), p) == OfPriority(edges, p)
    decreases |edges|
  {
    if edges != [] {
      var init, last := edges[..|edges| - 1], edges[|edges| - 1];
      SortIsStable(init, p);
      InsertStaysSorted(last, SortByPriority(init));
      InsertIsStable(last, SortByPriority(init), p);
    }
  }

  function OfPriority(edges: seq<StepEdge>, p: int): seq<StepEdge> {
    if edges == [] then []
    else OfPriority(edges[..|edges| - 1], p) + if edges[|edges| - 1].priority == p then [edges[|edges| - 1]] else []
  }

  lemma {:induction false} OfPriorityFront(e: StepEdge, edges: seq<StepEdge>, p: int)
    ensures OfPriority([e] + edges, p) == (if e.priority == p then [e] else []) + OfPriority(edges, p)
    decreases |edges|
  {
    if edges == [] {
      assert [e] + edges == [e] && [e][..0] == [];
    } else {
      OfPriorityFront(e, edges[..|edges| - 1], p);
      assert ([e] + edges)[..|edges|] == [e] + edges[..|edges| - 1];
    }
  }

  lemma {:induction false} NoneOfPriority(edges: seq<StepEdge>, p: int)
    requires forall i :: 0 <= i < |edges| ==> edges[i].priority > p
    ensures OfPriority(edges, p) == []
    decreases |edges|
  {
    if edges != [] {
      NoneOfPriority(edges[..|edges| - 1], p);
    }
  }

  lemma InsertShape(e: StepEdge, sorted: seq<StepEdge>)
    ensures InsertByPriority(e, sorted)
         == if sorted == [] || e.priority < sorted[0].priority then [e] + sorted
            else [sorted[0]] + InsertByPriority(e, sorted[1..])
  {
  }

  lemma {:induction false} InsertStaysSorted(e: StepEdge, sorted: seq<StepEdge>)
    requires Ascending(sorted)
    ensures Ascending(InsertByPriority(e, sorted))
    decreases |sorted|
  {
    InsertShape(e, sorted);
    hide InsertByPriority;
    if sorted == [] || e.priority < sorted[0].priority {
      AscendingFront(e, sorted);
    } else {
      InsertStaysSorted(e, sorted[1..]);
      InsertAbove(e, sorted[1..], sorted[0].priority);
      AscendingFront(sorted[0], InsertByPriority(e, sorted[1..]));
    }
  }

  lemma {:induction false} InsertIsStable(e: StepEdge, sorted: seq<StepEdge>, p: int)
    requires Ascending(sorted)
    ensures OfPriority(InsertByPriority(e, sorted), p) == OfPriority(sorted, p) + if e.priority == p then [e] else []
    decreases |sorted|
  {
    InsertShape(e, sorted);
    hide InsertByPriority, OfPriority;
    if sorted == [] || e.priority < sorted[0].priority {
      OfPriorityFront(e, sorted, p);
      if e.priority == p {
        NoneOfPriority(sorted, p);
      }
    } else {
      var head, tail := sorted[0], sorted[1..];
      assert sorted == [head] + tail;
      InsertIsStable(e, tail, p);
      OfPriorityFront(head, tail, p);
      OfPriorityFront(head, InsertByPriority(e, tail), p);
    }
  }

  lemma AscendingFront(e: StepEdge, edges: seq<StepEdge>)
    requires Ascending(edges) && forall i :: 0 <= i < |edges| ==> edges[i].priority >= e.priority
    ensures Ascending([e] + edges)
  {
  }

  lemma {:induction false} InsertAbove(e: StepEdge, sorted: seq<StepEdge>, p: int)
    requires e.priority >= p && forall i :: 0 <= i < |sorted| ==> sorted[i].priority >= p
    ensures forall i :: 0 <= i < |InsertByPriority(e, sorted)| ==> InsertByPriority(e, sorted)[i].priority >= p
    decreases |sorted|
  {
    if sorted != [] && e.priority >= sorted[0].priority {
      InsertAbove(e, sorted[1..], p);
    }
  }
}
