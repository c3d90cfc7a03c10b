/**
  Directed graphs as successor lists, and the one argument both depth-first searches rest
  on: nodes listed in the order they are finished have all their successors before them.
 */
module Graphs {
  type Graph = map<string, seq<string>>

  predicate Edge(g: Graph, a: string, b: string) {
    a in g && b in g[a]
  }

  predicate IsPath(g: Graph, p: seq<string>) {
    p != [] && forall i :: 0 <= i < |p| - 1 ==> Edge(g, p[i], p[i + 1])
  }

  ghost predicate Reaches(g: Graph, a: string, b: string) {
    exists p :: IsPath(g, p) && p[0] == a && p[|p| - 1] == b
  }

  predicate IsCycle(g: Graph, p: seq<string>) {
    |p| >= 2 && IsPath(g, p) && p[0] == p[|p| - 1]
  }

  ghost predicate Cyclic(g: Graph) {
    exists p :: IsCycle(g, p)
  }

  // A path whose last node it has already been through: what the searches report.
  predicate EndsInCycle(g: Graph, p: seq<string>) {
    |p| >= 2 && IsPath(g, p) && p[|p| - 1] in p[..|p| - 1]
  }

  function Vertices(g: Graph): set<string> {
    g.Keys + set a, b | a in g && b in g[a] :: b
  }

  predicate Distinct<T(==)>(s: seq<T>) {
    forall i, j :: 0 <= i < j < |s| ==> s[i] != s[j]
  }

  // Every successor of a listed node is listed before it.
  ghost predicate Settled(g: Graph, order: seq<string>) {
    && Distinct(order)
    && forall i, b :: 0 <= i < |order| && Edge(g, order[i], b) ==> b in order[..i]
  }

  function IndexOf<T(==)>(s: seq<T>, x: T): (i: nat)
    requires x in s
    ensures i < |s| && s[i] == x && x !in s[..i]
  {
    if s[0] == x then 0 else 1 + IndexOf(s[1..], x)
  }

  lemma {:induction false} IndexIsFirst<T>(s: seq<T>, x: T, j: nat)
    requires j < |s| && s[j] == x
    ensures IndexOf(s, x) <= j
  {
    if s[0] != x {
      IndexIsFirst(s[1..], x, j - 1);
    }
  }

  lemma SettledExtends(g: Graph, order: seq<string>, x: string)
    requires Settled(g, order) && x !in order
    requires forall b :: Edge(g, x, b) ==> b in order
    ensures Settled(g, order + [x])
  {
    var longer := order + [x];
    forall i, b | 0 <= i < |longer| && Edge(g, longer[i], b) ensures b in longer[..i] {
      if i < |order| {
        assert longer[..i] == order[..i];
      } else {
        assert longer[..i] == order;
      }
    }
  }

  lemma EdgeDescends(g: Graph, order: seq<string>, a: string, b: string)
    requires Settled(g, order) && a in order && Edge(g, a, b)
    ensures b in order && IndexOf(order, b) < IndexOf(order, a)
  {
    var i := IndexOf(order, a);
    assert Edge(g, order[i], b);
    var j :| 0 <= j < i && order[..i][j] == b;
    IndexIsFirst(order, b, j);
  }

  lemma {:induction false} PathDescends(g: Graph, order: seq<string>, p: seq<string>, k: nat)
    requires Settled(g, order) && IsPath(g, p) && p[0] in order && k < |p|
    ensures p[k] in order && IndexOf(order, p[k]) + k <= IndexOf(order, p[0])
  {
    if k > 0 {
      PathDescends(g, order, p, k - 1);
      EdgeDescends(g, order, p[k - 1], p[k]);
    }
  }

  /** A settled node lies on no cycle. */
  lemma SettledAcyclic(g: Graph, order: seq<string>, p: seq<string>)
    requires Settled(g, order) && IsPath(g, p) && |p| >= 2 && p[0] in order
    ensures p[|p| - 1] != p[0]
  {
    PathDescends(g, order, p, |p| - 1);
  }

  /** Whatever a settled node reaches is settled. */
  lemma SettledClosed(g: Graph, order: seq<string>, a: string, b: string)
    requires Settled(g, order) && a in order && Reaches(g, a, b)
    ensures b in order
  {
    var p :| IsPath(g, p) && p[0] == a && p[|p| - 1] == b;
    PathDescends(g, order, p, |p| - 1);
  }

  /** If everything with successors is settled, there is no cycle at all. */
  lemma AllSettledAcyclic(g: Graph, order: seq<string>)
    requires Settled(g, order) && forall a :: a in g ==> a in order
    ensures !Cyclic(g)
  {
    if Cyclic(g) {
      var p :| IsCycle(g, p);
      assert Edge(g, p[0], p[1]);
      SettledAcyclic(g, order, p);
    }
  }

  lemma EndsInCycleIsCyclic(g: Graph, p: seq<string>)
    requires EndsInCycle(g, p)
    ensures Cyclic(g)
  {
    var i :| 0 <= i < |p| - 1 && p[i] == p[|p| - 1];
    var c := p[i..];
    forall j | 0 <= j < |c| - 1 ensures Edge(g, c[j], c[j + 1]) {
      assert Edge(g, p[i + j], p[i + j + 1]);
    }
    assert IsCycle(g, c);
  }

  lemma ReachesItself(g: Graph, a: string)
    ensures Reaches(g, a, a)
  {
    assert IsPath(g, [a]);
  }

  lemma ReachesFurther(g: Graph, a: string, b: string, c: string)
    requires Reaches(g, a, b) && Edge(g, b, c)
    ensures Reaches(g, a, c)
  {
    var p :| IsPath(g, p) && p[0] == a && p[|p| - 1] == b;
    assert IsPath(g, p + [c]);
    assert (p + [c])[|p + [c]| - 1] == c;
  }

  lemma PathGrows(g: Graph, p: seq<string>, x: string)
    requires p == [] || (IsPath(g, p) && Edge(g, p[|p| - 1], x))
    ensures IsPath(g, p + [x])
  {
  }

  // A smaller graph has no cycle the larger one lacks.
  lemma SubgraphAcyclic(small: Graph, big: Graph)
    requires forall a, b :: Edge(small, a, b) ==> Edge(big, a, b)
    requires !Cyclic(big)
    ensures !Cyclic(small)
  {
    if Cyclic(small) {
      var p :| IsCycle(small, p);
      assert IsCycle(big, p);
    }
  }

  // ---- What both depth-first searches keep ----

  // Visited nodes are either on the current path or finished; finished nodes are settled.
  ghost predicate Walk(g: Graph, visited: set<string>, path: seq<string>, done: seq<string>) {
    && Settled(g, done)
    && Distinct(path)
    && (path == [] || IsPath(g, path))
    && (forall x :: x in visited <==> x in path || x in done)
    && (forall x :: x in path ==> x !in done)
  }

  lemma WalkEnters(g: Graph, visited: set<string>, path: seq<string>, done: seq<string>, x: string)
    requires Walk(g, visited, path, done) && x !in visited
    requires path == [] || Edge(g, path[|path| - 1], x)
    ensures Walk(g, visited + {x}, path + [x], done)
  {
    PathGrows(g, path, x);
  }

  lemma WalkLeaves(g: Graph, visited: set<string>, path: seq<string>, done: seq<string>, x: string)
    requires Walk(g, visited, path + [x], done)
    requires forall b :: b in Targets(g, x) ==> b in visited && b !in path + [x]
    ensures Walk(g, visited, path, done + [x]) && x in visited && x !in path
  {
    assert x in path + [x];
    SettledExtends(g, done, x);
    var longer := path + [x];
    assert forall i :: 0 <= i < |path| ==> longer[i] == path[i];
    assert longer[|path|] == x;
    if path != [] {
      forall i | 0 <= i < |path| - 1 ensures Edge(g, path[i], path[i + 1]) {
        assert Edge(g, longer[i], longer[i + 1]);
      }
    }
  }

  function Targets(g: Graph, node: string): seq<string> {
    if node in g then g[node] else []
  }

  // Every vertex a walk can meet; its unvisited part shrinks as the walk nests.
  ghost predicate Covers(g: Graph, all: set<string>) {
    forall a, b :: Edge(g, a, b) ==> b in all
  }

  lemma SmallerSet<T>(a: set<T>, b: set<T>)
    requires a < b
    ensures |a| < |b|
  {
    assert b == a + (b - a);
    assert |b| == |a| + |b - a|;
  }

  lemma NoMoreLeft<T>(all: set<T>, before: set<T>, after: set<T>)
    requires before <= after
    ensures |all - after| <= |all - before|
  {
    if all - after != all - before {
      SmallerSet(all - after, all - before);
    }
  }

  // ---- An acyclic graph can be listed successors first ----

  function Elems(s: seq<string>): set<string> {
    set x | x in s
  }

  // From an unlisted node, walk to one whose successors are all listed.
  lemma {:induction false} FindReady(g: Graph, all: set<string>, order: seq<string>, p: seq<string>) returns (ready: string)
    requires !Cyclic(g) && Covers(g, all)
    requires IsPath(g, p) && Distinct(p) && Elems(p) <= all && p[|p| - 1] !in order
    ensures ready in all && ready !in order && forall b :: Edge(g, ready, b) ==> b in order
    decreases |all - Elems(p)|
  {
    var x := p[|p| - 1];
    if b :| Edge(g, x, b) && b !in order {
      PathGrows(g, p, b);
      var longer := p + [b];
      if b in p {
        assert EndsInCycle(g, longer) by {
          assert longer[..|longer| - 1] == p;
        }
        EndsInCycleIsCyclic(g, longer);
        assert false;
      }
      assert Elems(longer) == Elems(p) + {b};
      SmallerSet(all - Elems(longer), all - Elems(p));
      ready := FindReady(g, all, order, longer);
    } else {
      assert x in Elems(p);
      ready := x;
    }
  }

  lemma {:induction false} CompleteOrder(g: Graph, all: set<string>, order0: seq<string>) returns (order: seq<string>)
    requires !Cyclic(g) && Covers(g, all) && Settled(g, order0) && Elems(order0) <= all
    ensures Settled(g, order) && Elems(order) == all
    decreases |all - Elems(order0)|
  {
    if Elems(order0) == all {
      order := order0;
    } else {
      forall y | y in all && all - Elems(order0) == {} ensures y in Elems(order0) {
        assert y in Elems(order0) || y in all - Elems(order0);
      }
      var x :| x in all - Elems(order0);
      var ready := FindReady(g, all, order0, [x]);
      SettledExtends(g, order0, ready);
      assert Elems(order0 + [ready]) == Elems(order0) + {ready};
      SmallerSet(all - Elems(order0 + [ready]), all - Elems(order0));
      order := CompleteOrder(g, all, order0 + [ready]);
    }
  }

  /** Every vertex of an acyclic graph, each after all its successors. */
  lemma TopologicalOrder(g: Graph) returns (order: seq<string>)
    requires !Cyclic(g)
    ensures Settled(g, order) && forall a :: a in g ==> a in order
  {
    order := CompleteOrder(g, Vertices(g), []);
    forall a | a in g ensures a in order {
      assert a in Elems(order);
    }
  }
}
