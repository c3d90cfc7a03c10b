/** Data dependencies: which nodes a node's `with` block names in its `{{ ... }}` references. */
module DependencyGraph {
  import opened Wrappers
  import opened Strings
  import opened Schema

  // The next `{{ ... }}` at or after a position: its root name, and where to look on.
  function NextReference(s: string, start: nat): (r: Option<(string, nat)>)
    requires start <= |s|
    ensures r.Some? ==> start < r.value.1 <= |s|
  {
    match Find(s, "{{", start)
    case None => None
    case Some(open) =>
      match Find(s, "}}", open + 2)
      case None => None
      case Some(close) => Some((UpTo(Trim(s[open + 2..close]), '.'), close + 2))
  }

  // `extract_from_string` from a position on.
  function ReferencesFrom(s: string, start: nat): seq<string>
    requires start <= |s|
    decreases |s| - start
  {
    match NextReference(s, start)
    case None => []
    case Some((root, next)) => [root] + ReferencesFrom(s, next)
  }

  method ExtractFromString(s: string) returns (refs: seq<string>)
    ensures refs == ReferencesFrom(s, 0)
  {
    refs := [];
    var start: nat := 0;
    while true
      invariant start <= |s|
      invariant ReferencesFrom(s, 0) == refs + ReferencesFrom(s, start)
      decreases |s| - start
    {
      var next := NextReference(s, start);
      if next.None? {
        return;
      }
      assert refs + ([next.value.0] + ReferencesFrom(s, next.value.1)) == (refs + [next.value.0]) + ReferencesFrom(s, next.value.1);
      refs := refs + [next.value.0];
      start := next.value.1;
    }
  }

  // `extract_references`
  function References(value: Json): set<string> {
    match value
    case JStr(s) => set r | r in ReferencesFrom(s, 0)
    case JArr(items) => set i, r | 0 <= i < |items| && r in References(items[i]) :: r
    case JObj(fields) => set i, r | 0 <= i < |fields| && r in References(fields[i].1) :: r
    case _ => {}
  }

  // The dependencies one node contributes.
  function NodeDependencies(schema: WorkflowSchema, name: string, node: NodeSchema): set<string> {
    match node.with_
    case None => {}
    case Some(w) => set r | r in References(w) && r in NodeNames(schema) && r != name
  }

  type Dependencies = map<string, set<string>>

  /** `DependencyGraph::build`: every node has an entry, holding the other nodes it names. */
  method Build(schema: WorkflowSchema) returns (deps: Dependencies)
    ensures deps.Keys == NodeNames(schema)
    ensures forall i :: 0 <= i < |schema.nodes| ==>
              deps[schema.nodes[i].name] == NodeDependencies(schema, schema.nodes[i].name, schema.nodes[i].node)
  {
    hide References;
    deps := map[];
    for i := 0 to |schema.nodes|
      invariant deps.Keys == set j | 0 <= j < i :: schema.nodes[j].name
      invariant forall n :: n in deps ==> deps[n] == {}
    {
      deps := deps[schema.nodes[i].name := {}];
    }
    for i := 0 to |schema.nodes|
      invariant deps.Keys == NodeNames(schema)
      invariant forall j :: 0 <= j < |schema.nodes| ==>
                  deps[schema.nodes[j].name]
                  == if j < i then NodeDependencies(schema, schema.nodes[j].name, schema.nodes[j].node) else {}
    {
      var name, node := schema.nodes[i].name, schema.nodes[i].node;
      if node.with_.Some? {
        deps := AddReferences(deps, NodeNames(schema), name, References(node.with_.value));
        assert deps[name] == NodeDependencies(schema, name, node);
      }
    }
  }

  // The inner loop of `build`, over a hash set, in any order.
  method AddReferences(deps0: Dependencies, names: set<string>, name: string, refs: set<string>)
    returns (deps: Dependencies)
    requires name in deps0
    ensures deps == deps0[name := deps0[name] + set r | r in refs && r in names && r != name]
  {
    deps := deps0;
    var rest := refs;
    while rest != {}
      invariant rest <= refs && name in deps
      invariant deps == deps0[name := deps[name]]
      invariant deps[name] == deps0[name] + set r | r in refs - rest && r in names && r != name
      decreases rest
    {
      var r :| r in rest;
      if r in names && r != name {
        deps := deps[name := deps[name] + {r}];
      }
      rest := rest - {r};
    }
    assert refs - rest == refs;
  }
}
