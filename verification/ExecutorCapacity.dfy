/**
  How much room the executor needs to leave nothing behind: as many concurrent nodes as the
  workflow has steps, and never fewer.  With less room, a chain of steps that each return and
  announce the next one is left before its end, because finished tasks keep their place until
  they are joined.
 */
module ExecutorCapacity {
  import opened Wrappers
  import opened Graphs
  import opened Validator
  import opened Workflows
  import opened Compiler
  import opened Routing
  import opened TaskLoop
  import opened Executor
  import opened ExecutorSafety
  import opened ExecutorLoop

  // ---- The chain ----

  function Name(i: nat): (name: string)
    ensures |name| == i + 1 && name[0] == 'x' && name != "input"
  {
    assert "input"[0] != 'x';
    seq(i + 1, j requires 0 <= j < i + 1 => 'x')
  }

  lemma NamesDiffer(i: nat, j: nat)
    ensures Name(i) == Name(j) <==> i == j
  {
    assert |Name(i)| == i + 1 && |Name(j)| == j + 1;
  }

  function ChainEdges(n: nat, i: nat): seq<StepEdge> {
    [StepEdge(Return, None, 0)] + if i + 1 < n then [StepEdge(ToStep(Name(i + 1)), None, 0)] else []
  }

  function ChainStep(n: nat, i: nat): Step {
    Step(Name(i), "echo", [], ChainEdges(n, i), [], All, Fail, None, None, None)
  }

  function Chain(n: nat): Workflow {
    Workflow("chain", Name(0), seq(n, i requires 0 <= i < n => ChainStep(n, i)), [])
  }

  lemma {:induction false} FindInTail(n: nat, from: nat, i: nat)
    requires from <= i < n
    ensures GetStep(Chain(n).steps[from..], Name(i)) == Some(ChainStep(n, i))
    decreases i - from
  {
    var rest := Chain(n).steps[from..];
    NamesDiffer(from, i);
    if from < i {
      assert rest[1..] == Chain(n).steps[from + 1..];
      FindInTail(n, from + 1, i);
    }
  }

  lemma ChainHas(n: nat, i: nat)
    requires i < n
    ensures GetStep(Chain(n).steps, Name(i)) == Some(ChainStep(n, i))
  {
    FindInTail(n, 0, i);
    assert Chain(n).steps[0..] == Chain(n).steps;
  }

  // Last step first: what every edge leads back to.
  function Backwards(n: nat): (order: seq<string>)
    ensures |order| == n && forall k :: 0 <= k < n ==> order[k] == Name(n - 1 - k)
  {
    seq(n, k requires 0 <= k < n => Name(n - 1 - k))
  }

  lemma BackwardsDistinct(n: nat)
    ensures Distinct(Backwards(n))
  {
    forall i, j | 0 <= i < j < n ensures Backwards(n)[i] != Backwards(n)[j] {
      NamesDiffer(n - 1 - i, n - 1 - j);
    }
  }

  lemma ChainTargets(n: nat, i: nat)
    ensures StepTargets(ChainEdges(n, i)) == if i + 1 < n then [Name(i + 1)] else []
  {
    if i + 1 < n {
      var last := [StepEdge(ToStep(Name(i + 1)), None, 0)];
      assert ChainEdges(n, i)[1..] == last && last[1..] == [];
      assert StepTargets(last) == [Name(i + 1)];
    } else {
      assert ChainEdges(n, i)[1..] == [];
    }
  }

  lemma AdjacencyGrows(n: nat, m: nat)
    requires 0 < m <= n
    ensures Adjacency(Chain(n).steps[..m])
         == Adjacency(Chain(n).steps[..m - 1])[Name(m - 1) := StepTargets(ChainEdges(n, m - 1))]
  {
    var steps := Chain(n).steps[..m];
    assert steps[..m - 1] == Chain(n).steps[..m - 1];
  }

  lemma {:induction false} ChainAdjacency(n: nat, m: nat, i: nat)
    requires i < m <= n
    ensures Name(i) in Adjacency(Chain(n).steps[..m])
    ensures Adjacency(Chain(n).steps[..m])[Name(i)] == StepTargets(ChainEdges(n, i))
    decreases m
  {
    AdjacencyGrows(n, m);
    NamesDiffer(i, m - 1);
    if i < m - 1 {
      ChainAdjacency(n, m - 1, i);
    }
  }

  lemma ChainEdge(n: nat, k: nat, b: string)
    requires k < n && Edge(Adjacency(Chain(n).steps), Backwards(n)[k], b)
    ensures k > 0 && b == Backwards(n)[k - 1]
  {
    hide Adjacency, StepTargets, GetStep, Distinct;
    var i := n - 1 - k;
    assert Chain(n).steps[..n] == Chain(n).steps;
    ChainAdjacency(n, n, i);
    ChainTargets(n, i);
  }

  lemma ChainIsAcyclic(n: nat)
    ensures !Cyclic(Adjacency(Chain(n).steps))
  {
    hide Adjacency, StepTargets, GetStep, Cyclic;
    var w, g, order := Chain(n), Adjacency(Chain(n).steps), Backwards(n);
    BackwardsDistinct(n);
    forall k, b | 0 <= k < n && Edge(g, order[k], b) ensures b in order[..k] {
      ChainEdge(n, k, b);
      assert order[..k][k - 1] == b;
    }
    forall a | a in g ensures a in order {
      var i :| 0 <= i < n && w.steps[i].id == a;
      assert order[n - 1 - i] == a;
    }
    AllSettledAcyclic(g, order);
  }

  lemma ChainIsWellFormed(n: nat)
    requires n > 0
    ensures WellFormed(Chain(n))
  {
    hide Adjacency, Cyclic, GetStep;
    var w := Chain(n);
    ChainHas(n, 0);
    ChainIsAcyclic(n);
    forall i | 0 <= i < n ensures EdgesKnown(w, w.steps[i]) && DepsKnown(w, w.steps[i]) {
      if i + 1 < n {
        ChainHas(n, i + 1);
      }
    }
    assert w.steps[0].edges[0].target.Return? && Returns(w.steps[0]);
  }

  // ---- What one of its tasks does ----

  const YES: Eval := (c: string) => Some(true)

  lemma ChainTurn(n: nat, i: nat)
    requires i + 1 < n
    ensures Advance(Chain(n), ChainStep(n, i), 0, ToolOk(YES, YES)) == Finish([Name(i + 1)], true)
  {
    var edges := ChainEdges(n, i);
    var next := ToStep(Name(i + 1));
    SortedStays(edges);
    assert edges == [StepEdge(Return, None, 0), StepEdge(next, None, 0)];
    assert ChooseFrom(edges, YES, 2) == Some([]);
    var targets := [Return, next];
    assert [next] + [] == [next] && [Return] + [next] == targets;
    assert ChooseFrom(edges, YES, 1) == Some([next]);
    assert ChooseFrom(edges, YES, 0) == Some(targets);
    assert targets[1..] == [next] && [next][1..] == [];
    assert StepIds([next]) == [Name(i + 1)];
    assert StepIds(targets) == [Name(i + 1)];
  }

  // ---- The run that leaves too early ----

  function Room(n: nat, cap: nat): EngineConfig {
    EngineConfig(n, 1, cap, 0, 0)
  }

  // How many steps of the chain get started: the entry always does.
  function Started(cap: nat): nat {
    if cap == 0 then 1 else cap
  }

  function Waiting(j: nat): Task { Sending([Node(Name(j))], true, 1, 0) }

  const TOLD: Task := Sending([], true, 1, 1)

  function Reach(m: nat): set<string> {
    set j | 0 <= j < m :: Name(j)
  }

  function Names(m: nat): seq<string> {
    seq(m, j requires 0 <= j < m => Name(j))
  }

  function Waits(from: nat, m: nat): (ts: seq<Task>)
    requires from <= m
    ensures |ts| == m - from && forall j :: 0 <= j < |ts| ==> ts[j] == Waiting(from + j)
  {
    seq(m - from, j requires 0 <= j < m - from => Waiting(from + j))
  }

  function Copies(k: nat, t: Task): (ts: seq<Task>)
    ensures |ts| == k && forall j :: 0 <= j < |ts| ==> ts[j] == t
  {
    seq(k, j requires 0 <= j < k => t)
  }

  // The first `i` steps wait to say they finished, step `i` runs.
  function Climbing(n: nat, i: nat): State {
    State(Selecting, Reach(i + 1), Names(i + 1), i + 1, 0, 0,
          Waits(0, i) + [Running(ChainStep(n, i), 0, 0)], [], {"input"} + Reach(i))
  }

  // All `c` started steps are done and `k` of them have said so.
  function Telling(c: nat, k: nat): State
    requires k <= c
  {
    State(Selecting, Reach(c + 1), Names(c), c, k, 0, Copies(k, TOLD) + Waits(k, c), [], {"input"} + Reach(c))
  }

  // `k` of the `c` tasks are joined; after the last the loop leaves.
  function Joining(c: nat, k: nat): State
    requires k <= c
  {
    State(if k == c then Left else Selecting, Reach(c + 1), Names(c), c, c, k,
          Copies(k, Joined(1)) + Copies(c - k, TOLD), [], {"input"} + Reach(c))
  }

  ghost predicate Leads(cfg: EngineConfig, w: Workflow, s: State, t: State) {
    exists events :: IsRun(cfg, w, s, events) && After(cfg, w, s, events) == t
  }

  lemma LeadsHere(cfg: EngineConfig, w: Workflow, s: State)
    ensures Leads(cfg, w, s, s)
  {
    assert IsRun(cfg, w, s, []) && After(cfg, w, s, []) == s;
  }

  lemma LeadsOn(cfg: EngineConfig, w: Workflow, s: State, t: State, e: Event)
    requires Leads(cfg, w, s, t) && Enabled(cfg, w, t, e)
    ensures Leads(cfg, w, s, Apply(cfg, w, t, e))
  {
    var events :| IsRun(cfg, w, s, events) && After(cfg, w, s, events) == t;
    RunAppend(cfg, w, s, events, e);
  }

  lemma {:induction false} AllActive(ts: seq<Task>)
    requires forall i :: 0 <= i < |ts| ==> !ts[i].Joined?
    ensures Total(ActiveWeight, ts) == |ts|
  {
    if ts != [] {
      AllActive(ts[..|ts| - 1]);
    }
  }

  lemma {:induction false} ActiveAfterJoins(k: nat, m: nat)
    ensures Total(ActiveWeight, Copies(k, Joined(1)) + Copies(m, TOLD)) == m
    decreases k + m
  {
    var ts := Copies(k, Joined(1)) + Copies(m, TOLD);
    if m > 0 {
      assert ts[..|ts| - 1] == Copies(k, Joined(1)) + Copies(m - 1, TOLD);
      ActiveAfterJoins(k, m - 1);
    } else if k > 0 {
      assert ts[..|ts| - 1] == Copies(k - 1, Joined(1)) + Copies(0, TOLD);
      ActiveAfterJoins(k - 1, 0);
    }
  }

  lemma ReachGrows(m: nat)
    ensures Reach(m + 1) == Reach(m) + {Name(m)}
  {
    forall name ensures name in Reach(m + 1) <==> name in Reach(m) || name == Name(m) {
      if name in Reach(m + 1) {
        var j :| 0 <= j < m + 1 && Name(j) == name;
        assert j < m ==> Name(j) in Reach(m);
      }
    }
  }

  lemma NotStarted(i: nat)
    ensures Name(i) !in Names(i)
  {
    forall j | 0 <= j < i ensures Names(i)[j] != Name(i) {
      NamesDiffer(j, i);
    }
  }

  lemma ClimbStarts(n: nat)
    requires n > 0
    ensures HasStep(Chain(n), Chain(n).entry) && Init(Chain(n)) == Climbing(n, 0)
  {
    ChainHas(n, 0);
    ReachGrows(0);
    assert Names(1) == [Name(0)] && Reach(0) == {};
    assert Waits(0, 0) + [Running(ChainStep(n, 0), 0, 0)] == [Running(ChainStep(n, 0), 0, 0)];
  }

  // One running step finishes and announces the next; its own `Node` message waits.
  function Announced(n: nat, i: nat): State {
    Climbing(n, i).(tasks := Waits(0, i + 1), channel := [SpawnNext(Name(i + 1))], completed := {"input"} + Reach(i + 1))
  }

  lemma WaitsGrow(i: nat, task: Task)
    ensures (Waits(0, i) + [task])[i := Waiting(i)] == Waits(0, i + 1)
  {
  }

  lemma TwoMessages(i: nat)
    ensures Messages(Name(i), [Name(i + 1)]) == [SpawnNext(Name(i + 1)), Node(Name(i))]
    ensures [SpawnNext(Name(i + 1)), Node(Name(i))][1..] == [Node(Name(i))]
  {
  }

  lemma StepFinishes(cfg: EngineConfig, n: nat, s0: State, i: nat)
    requires i + 1 < n && cfg.finishedChannelSize > 0 && Leads(cfg, Chain(n), s0, Climbing(n, i))
    ensures Leads(cfg, Chain(n), s0, Announced(n, i))
  {
    var w, s := Chain(n), Climbing(n, i);
    var e := Exec(i, ToolOk(YES, YES));
    ChainTurn(n, i);
    TwoMessages(i);
    ReachGrows(i);
    LeadsOn(cfg, w, s0, s, e);
    var t := Apply(cfg, w, s, e);
    assert t.tasks == Waits(0, i) + [Sending([SpawnNext(Name(i + 1)), Node(Name(i))], true, 1, 0)];
    WaitsGrow(i, t.tasks[i]);
    LeadsOn(cfg, w, s0, t, Send(i));
    assert Apply(cfg, w, t, Send(i)).channel == [SpawnNext(Name(i + 1))];
  }

  lemma ClimbingActive(n: nat, i: nat)
    ensures Active(Climbing(n, i)) == i + 1 && Active(Announced(n, i)) == i + 1
  {
    AllActive(Climbing(n, i).tasks);
    AllActive(Waits(0, i + 1));
  }

  // What the scheduler sees when the announcement is received.
  function Noticed(n: nat, i: nat): State {
    Announced(n, i).(channel := [], reachable := Reach(i + 2))
  }

  lemma NoticedStarts(n: nat, i: nat)
    requires i + 1 < n
    ensures TrySpawn(Chain(n), Noticed(n, i), Name(i + 1)) == Climbing(n, i + 1)
  {
    ChainHas(n, i + 1);
    NotStarted(i + 1);
    assert Names(i + 2) == Names(i + 1) + [Name(i + 1)];
    assert MayRun(ChainStep(n, i + 1), Noticed(n, i).completed);
  }

  lemma ReceiptStarts(cfg: EngineConfig, n: nat, i: nat)
    requires i + 1 < n && i + 1 < cfg.maxConcurrentNodes
    ensures ApplyReceive(cfg, Chain(n), Announced(n, i)) == Climbing(n, i + 1)
  {
    ClimbingActive(n, i);
    ClimbingActive(n, i + 1);
    ReachGrows(i + 1);
    assert Announced(n, i).channel[1..] == [];
    NoticedStarts(n, i);
    assert Settle(Climbing(n, i + 1)) == Climbing(n, i + 1);
  }

  // With room, the announced step is started.
  lemma StepStarts(cfg: EngineConfig, n: nat, s0: State, i: nat)
    requires i + 1 < n && i + 1 < cfg.maxConcurrentNodes && Leads(cfg, Chain(n), s0, Announced(n, i))
    ensures Leads(cfg, Chain(n), s0, Climbing(n, i + 1))
  {
    ReceiptStarts(cfg, n, i);
    LeadsOn(cfg, Chain(n), s0, Announced(n, i), Receive);
  }

  // Without, it is only remembered.
  lemma StepIsTurnedAway(cfg: EngineConfig, n: nat, s0: State, i: nat)
    requires i + 1 < n && i + 1 >= cfg.maxConcurrentNodes && Leads(cfg, Chain(n), s0, Announced(n, i))
    ensures Leads(cfg, Chain(n), s0, Telling(i + 1, 0))
  {
    var w, s := Chain(n), Announced(n, i);
    ClimbingActive(n, i);
    ReachGrows(i + 1);
    LeadsOn(cfg, w, s0, s, Receive);
    assert s.channel[1..] == [];
    assert Copies(0, TOLD) + Waits(0, i + 1) == Waits(0, i + 1);
    assert Apply(cfg, w, s, Receive) == Telling(i + 1, 0);
  }

  lemma {:induction false} ClimbTo(cfg: EngineConfig, n: nat, i: nat)
    requires i < n && cfg.finishedChannelSize > 0 && (i > 0 ==> i < cfg.maxConcurrentNodes)
    ensures Leads(cfg, Chain(n), Climbing(n, 0), Climbing(n, i))
  {
    if i == 0 {
      LeadsHere(cfg, Chain(n), Climbing(n, 0));
    } else {
      ClimbTo(cfg, n, i - 1);
      StepFinishes(cfg, n, Climbing(n, 0), i - 1);
      StepStarts(cfg, n, Climbing(n, 0), i - 1);
    }
  }

  lemma TellShape(c: nat, k: nat)
    requires k < c
    ensures (Copies(k, TOLD) + Waits(k, c))[k] == Waiting(k)
    ensures (Copies(k, TOLD) + Waits(k, c))[k := TOLD] == Copies(k + 1, TOLD) + Waits(k + 1, c)
  {
  }

  // A finished step says so; the scan stops at once, since nobody has been joined.
  lemma TellOne(cfg: EngineConfig, n: nat, s0: State, c: nat, k: nat)
    requires k < c && c >= cfg.maxConcurrentNodes && cfg.finishedChannelSize > 0 && Leads(cfg, Chain(n), s0, Telling(c, k))
    ensures Leads(cfg, Chain(n), s0, Telling(c, k + 1))
  {
    var w, s := Chain(n), Telling(c, k);
    TellShape(c, k);
    assert [Node(Name(k))][1..] == [];
    LeadsOn(cfg, w, s0, s, Send(k));
    var t := s.(tasks := Copies(k + 1, TOLD) + Waits(k + 1, c), channel := [Node(Name(k))]);
    assert Apply(cfg, w, s, Send(k)) == t;
    LeadsOn(cfg, w, s0, t, Receive);
    var u := t.(channel := [], finished := k + 1, phase := Scanning(t.reachable));
    assert Apply(cfg, w, t, Receive) == u;
    ScanStops(cfg, n, c, k, u);
    LeadsOn(cfg, w, s0, u, Scan(Name(0)));
  }

  lemma ScanStops(cfg: EngineConfig, n: nat, c: nat, k: nat, u: State)
    requires k < c && c >= cfg.maxConcurrentNodes && u == Telling(c, k + 1).(phase := Scanning(Reach(c + 1)))
    ensures Enabled(cfg, Chain(n), u, Scan(Name(0))) && Apply(cfg, Chain(n), u, Scan(Name(0))) == Telling(c, k + 1)
  {
    assert Name(0) in Reach(c + 1);
    AllActive(u.tasks);
  }

  lemma {:induction false} TellAll(cfg: EngineConfig, n: nat, s0: State, c: nat, k: nat)
    requires k <= c && c >= cfg.maxConcurrentNodes && cfg.finishedChannelSize > 0 && Leads(cfg, Chain(n), s0, Telling(c, 0))
    ensures Leads(cfg, Chain(n), s0, Telling(c, k))
  {
    if k > 0 {
      TellAll(cfg, n, s0, c, k - 1);
      TellOne(cfg, n, s0, c, k - 1);
    }
  }

  lemma JoinShape(c: nat, k: nat)
    requires k < c
    ensures (Copies(k, Joined(1)) + Copies(c - k, TOLD))[k] == TOLD
    ensures (Copies(k, Joined(1)) + Copies(c - k, TOLD))[k := Joined(1)] == Copies(k + 1, Joined(1)) + Copies(c - k - 1, TOLD)
  {
  }

  lemma {:induction false} JoinAll(cfg: EngineConfig, n: nat, s0: State, c: nat, k: nat)
    requires k <= c <= cfg.maxSteps && c > 0 && Leads(cfg, Chain(n), s0, Telling(c, c))
    ensures Leads(cfg, Chain(n), s0, Joining(c, k))
  {
    var w := Chain(n);
    if k == 0 {
      assert Copies(c, TOLD) + Waits(c, c) == Copies(0, Joined(1)) + Copies(c, TOLD);
    } else {
      JoinAll(cfg, n, s0, c, k - 1);
      var s := Joining(c, k - 1);
      JoinShape(c, k - 1);
      ActiveAfterJoins(k, c - k);
      LeadsOn(cfg, w, s0, s, Join(k - 1));
      assert Apply(cfg, w, s, Join(k - 1)) == Joining(c, k);
    }
  }

  lemma StepIsLeft(n: nat, c: nat)
    requires c < n
    ensures Joining(c, c).phase.Left? && Name(c) in Joining(c, c).reachable && !CannotStart(Chain(n), Joining(c, c), Name(c))
  {
    ChainHas(n, c);
    NotStarted(c);
  }

  // Every started step of the chain finishes, says so and is joined, and then the loop leaves.
  lemma ChainLeaves(cfg: EngineConfig, n: nat, c: nat)
    requires 0 < c < n && c == Started(cfg.maxConcurrentNodes) && cfg.finishedChannelSize > 0 && c <= cfg.maxSteps
    ensures Leads(cfg, Chain(n), Climbing(n, 0), Joining(c, c))
  {
    ClimbTo(cfg, n, c - 1);
    StepFinishes(cfg, n, Climbing(n, 0), c - 1);
    StepIsTurnedAway(cfg, n, Climbing(n, 0), c - 1);
    TellAll(cfg, n, Climbing(n, 0), c, c);
    JoinAll(cfg, n, Climbing(n, 0), c, c);
  }

  /** A run of the chain that leaves normally with a reachable step never started. */
  lemma TooLittleRoom(n: nat, cap: nat) returns (events: seq<Event>)
    requires cap < n && n > 1
    ensures HasStep(Chain(n), Chain(n).entry) && IsRun(Room(n, cap), Chain(n), Init(Chain(n)), events)
    ensures var s := After(Room(n, cap), Chain(n), Init(Chain(n)), events);
      s.phase.Left? && exists id :: id in s.reachable && !CannotStart(Chain(n), s, id)
  {
    hide Climbing, Joining, Init, CannotStart, Chain, IsRun, After;
    var cfg, w, c := Room(n, cap), Chain(n), Started(cap);
    ClimbStarts(n);
    ChainLeaves(cfg, n, c);
    events :| IsRun(cfg, w, Climbing(n, 0), events) && After(cfg, w, Climbing(n, 0), events) == Joining(c, c);
    StepIsLeft(n, c);
  }

  ghost predicate LeavesQuiet(cfg: EngineConfig, w: Workflow) {
    HasStep(w, w.entry) ==>
      forall events :: IsRun(cfg, w, Init(w), events) && After(cfg, w, Init(w), events).phase.Left? ==>
        forall id :: id in After(cfg, w, Init(w), events).reachable ==> CannotStart(w, After(cfg, w, Init(w), events), id)
  }

  /**
    How much room is enough: every workflow of `n` steps with a known entry, or every one the
    workflow's own validation accepts, is left with nothing startable behind, whatever the other
    settings, exactly when `max_concurrent_nodes` is at least `n`.
   */
  lemma EnoughRoomIff(n: nat, cap: nat)
    requires n > 1
    ensures (forall cfg: EngineConfig, w: Workflow ::
               cfg.maxConcurrentNodes == cap && |w.steps| == n ==> LeavesQuiet(cfg, w))
      <==> cap >= n
    ensures (forall cfg: EngineConfig, w: Workflow ::
               cfg.maxConcurrentNodes == cap && |w.steps| == n && WellFormed(w) ==> LeavesQuiet(cfg, w))
      <==> cap >= n
  {
    if cap >= n {
      forall cfg: EngineConfig, w: Workflow, events: seq<Event> |
        cfg.maxConcurrentNodes == cap && |w.steps| == n && HasStep(w, w.entry)
        && IsRun(cfg, w, Init(w), events) && After(cfg, w, Init(w), events).phase.Left?
        ensures forall id :: id in After(cfg, w, Init(w), events).reachable ==>
                  CannotStart(w, After(cfg, w, Init(w), events), id)
      {
        LeavingIsQuiescent(cfg, w, events);
      }
    } else {
      var events := TooLittleRoom(n, cap);
      ChainIsWellFormed(n);
      assert !LeavesQuiet(Room(n, cap), Chain(n));
    }
  }
}
