/**
  The capability lattice: pattern strings, the two separately written checks that a child's
  patterns are covered by its parent's (`CapSet::attenuate` on envelopes, `child_scope` on
  execution scopes), and the access checks those patterns answer.

  Both checks are shown to be exact: they accept if and only if the child can reach no tool
  name that the parent cannot.
 */
module Capabilities {
  import opened Wrappers

  // `strip_suffix(":*")`
  function StripPrefixMark(s: string): Option<string> {
    if |s| >= 2 && s[|s| - 2..] == ":*" then Some(s[..|s| - 2]) else None
  }

  // `starts_with(prefix)` and the next character is a colon.
  predicate ColonAfter(prefix: string, s: string) {
    prefix <= s && |prefix| < |s| && s[|prefix|] == ':'
  }

  // `Capability::matches`
  predicate CapMatches(pattern: string, toolName: string) {
    if pattern == "*" then true
    else
      match StripPrefixMark(pattern)
      case Some(prefix) => ColonAfter(prefix, toolName)
      case None => pattern == toolName
  }

  predicate AnyMatches(patterns: seq<string>, name: string) {
    exists i :: 0 <= i < |patterns| && CapMatches(patterns[i], name)
  }

  /**
    What a pattern grants: `*` every name, `prefix:*` the names that go on after `prefix:`, any
    other pattern itself.  The colon is part of the prefix.
   */
  lemma CapMatchesIff(pattern: string, name: string)
    ensures CapMatches(pattern, name)
       <==> || pattern == "*"
            || (exists prefix: string, rest: string :: pattern == prefix + ":*" && name == prefix + ":" + rest)
            || (pattern == name && !(exists prefix: string :: pattern == prefix + ":*"))
  {
    if StripPrefixMark(pattern).Some? {
      var prefix := StripPrefixMark(pattern).value;
      assert pattern == prefix + ":*";
      if ColonAfter(prefix, name) {
        assert name == prefix + ":" + name[|prefix| + 1..];
      }
    }
    if prefix: string :| pattern == prefix + ":*" {
      assert pattern[|pattern| - 2..] == ":*" && pattern[..|pattern| - 2] == prefix;
    }
    if prefix: string, rest: string :| pattern == prefix + ":*" && name == prefix + ":" + rest {
      assert pattern[..|pattern| - 2] == prefix && name[|prefix|] == ':';
    }
  }

  // ---- Envelope side ----

  datatype Denied = EmptySet | NotGranted(name: string)

  // `CapSet::check_access`
  function CheckAccess(caps: seq<string>, toolName: string): Result<(), Denied> {
    if caps == [] then Err(EmptySet)
    else if AnyMatches(caps, toolName) then Ok(())
    else Err(NotGranted(toolName))
  }

  // The loop of `attenuate`: the first child pattern that no parent pattern matches.
  function FirstUncovered(parent: seq<string>, child: seq<string>): (bad: Option<string>)
    ensures bad.None? <==> forall i :: 0 <= i < |child| ==> AnyMatches(parent, child[i])
    ensures bad.Some? ==> exists i :: 0 <= i < |child| && child[i] == bad.value && !AnyMatches(parent, child[i])
  {
    if child == [] then None
    else if !AnyMatches(parent, child[0]) then Some(child[0])
    else FirstUncovered(parent, child[1..])
  }

  // `CapSet::attenuate`
  function Attenuate(parent: seq<string>, child: seq<string>): Result<seq<string>, Denied> {
    if child == [] then Ok([])
    else if parent == [] then Err(EmptySet)
    else
      match FirstUncovered(parent, child)
      case Some(pattern) => Err(NotGranted(pattern))
      case None => Ok(child)
  }

  // ---- Scope side ----

  datatype CapabilityGrant<V> = CapabilityGrant(pattern: string, bindings: map<string, V>)

  datatype ExecutionScope<V> = ExecutionScope(
    namespace: string, capabilities: seq<CapabilityGrant<V>>, depth: nat)

  function Patterns<V>(grants: seq<CapabilityGrant<V>>): (ps: seq<string>)
    ensures |ps| == |grants| && forall i :: 0 <= i < |ps| ==> ps[i] == grants[i].pattern
  {
    seq(|grants|, i requires 0 <= i < |grants| => grants[i].pattern)
  }

  // `check_tool`: the bindings of the first grant that matches.
  function FirstBindings<V>(grants: seq<CapabilityGrant<V>>, toolName: string): (found: Option<map<string, V>>)
    ensures found.Some? <==> AnyMatches(Patterns(grants), toolName)
  {
    if grants == [] then None
    else if CapMatches(grants[0].pattern, toolName) then
      assert CapMatches(Patterns(grants)[0], toolName);
      Some(grants[0].bindings)
    else
      assert Patterns(grants) == [grants[0].pattern] + Patterns(grants[1..]);
      FirstBindings(grants[1..], toolName)
  }

  /** The bindings a tool gets are those of the first grant that matches it. */
  lemma {:induction false} FirstGrantBinds<V>(grants: seq<CapabilityGrant<V>>, toolName: string, i: nat)
    requires i < |grants| && CapMatches(grants[i].pattern, toolName)
    requires forall j :: 0 <= j < i ==> !CapMatches(grants[j].pattern, toolName)
    ensures FirstBindings(grants, toolName) == Some(grants[i].bindings)
    decreases i
  {
    if i > 0 {
      FirstGrantBinds(grants[1..], toolName, i - 1);
    }
  }

  function CheckTool<V>(scope: ExecutionScope<V>, toolName: string): Result<map<string, V>, Denied> {
    match FirstBindings(scope.capabilities, toolName)
    case Some(bindings) => Ok(bindings)
    case None => Err(NotGranted(toolName))
  }

  // The closure inside `child_scope`, branch by branch.
  predicate ScopeCovers(parent: string, child: string) {
    if parent == "*" then true
    else if parent == child then true
    else
      match StripPrefixMark(parent)
      case None => false
      case Some(parentPrefix) =>
        match StripPrefixMark(child)
        case None => CapMatches(parent, child)
        case Some(childPrefix) =>
          && parentPrefix <= childPrefix
          && (childPrefix == parentPrefix
              || (|parentPrefix| < |childPrefix| && childPrefix[|parentPrefix|] == ':'))
  }

  predicate AnyCovers<V>(parents: seq<CapabilityGrant<V>>, child: string) {
    exists i :: 0 <= i < |parents| && ScopeCovers(parents[i].pattern, child)
  }

  function FirstRefused<V>(parents: seq<CapabilityGrant<V>>, child: seq<CapabilityGrant<V>>): Option<string> {
    if child == [] then None
    else if !AnyCovers(parents, child[0].pattern) then Some(child[0].pattern)
    else FirstRefused(parents, child[1..])
  }

  // `ExecutionScope::child_scope`
  function ChildScope<V>(parent: ExecutionScope<V>, child: seq<CapabilityGrant<V>>, namespace: Option<string>)
    : Result<ExecutionScope<V>, Denied>
  {
    match FirstRefused(parent.capabilities, child)
    case Some(pattern) => Err(NotGranted(pattern))
    case None =>
      Ok(ExecutionScope(if namespace.Some? then namespace.value else parent.namespace, child, parent.depth + 1))
  }

  // ---- What a pattern list grants ----

  ghost predicate Within(child: seq<string>, parent: seq<string>) {
    forall name :: AnyMatches(child, name) ==> AnyMatches(parent, name)
  }

  // Matching a pattern as if it were a tool name is inclusion of what the two grant.
  lemma CoverIsInclusion(parent: string, child: string, name: string)
    requires CapMatches(parent, child) && CapMatches(child, name)
    ensures CapMatches(parent, name)
  {
  }

  // A name the child pattern grants and that no short parent pattern grants by accident.
  function Witness(child: string, n: nat): (name: string)
    ensures CapMatches(child, name)
  {
    var filler := seq(n, _ => 'x');
    if child == "*" then filler
    else
      match StripPrefixMark(child)
      case Some(prefix) => prefix + ":" + filler
      case None => child
  }

  lemma WitnessDecides(parent: string, child: string, n: nat)
    requires n > |parent| && CapMatches(parent, Witness(child, n))
    ensures CapMatches(parent, child)
  {
    var name := Witness(child, n);
    if parent != "*" && child != "*" && StripPrefixMark(child).Some? && StripPrefixMark(parent).Some? {
      var p, c := StripPrefixMark(parent).value, StripPrefixMark(child).value;
      assert child == c + ":*";
      if |p| > |c| {
        assert false;
      }
      assert forall i :: 0 <= i < |p| ==> p[i] == name[i];
    }
  }

  function LongerThanAll(patterns: seq<string>): (n: nat)
    ensures forall i :: 0 <= i < |patterns| ==> n > |patterns[i]|
  {
    if patterns == [] then 0
    else
      var rest := LongerThanAll(patterns[1..]);
      if rest > |patterns[0]| then rest else |patterns[0]| + 1
  }

  /** `attenuate` accepts if and only if the child can reach no name beyond the parent. */
  lemma AttenuateExact(parent: seq<string>, child: seq<string>)
    ensures Attenuate(parent, child).Ok? <==> Within(child, parent)
    ensures Attenuate(parent, child).Ok? ==> Attenuate(parent, child).value == child
  {
    if Attenuate(parent, child).Ok? {
      forall name | AnyMatches(child, name) ensures AnyMatches(parent, name) {
        var i :| 0 <= i < |child| && CapMatches(child[i], name);
        assert AnyMatches(parent, child[i]);
        var j :| 0 <= j < |parent| && CapMatches(parent[j], child[i]);
        CoverIsInclusion(parent[j], child[i], name);
      }
    } else {
      var i :| 0 <= i < |child| && !AnyMatches(parent, child[i]);
      var n := LongerThanAll(parent);
      var name := Witness(child[i], n);
      forall j | 0 <= j < |parent| ensures !CapMatches(parent[j], name) {
        if CapMatches(parent[j], name) {
          WitnessDecides(parent[j], child[i], n);
        }
      }
      assert AnyMatches(child, name) && !AnyMatches(parent, name);
    }
  }

  // The hand-written prefix comparison of `child_scope` is the envelope's matcher.
  lemma CoversIsMatches(parent: string, child: string)
    ensures ScopeCovers(parent, child) <==> CapMatches(parent, child)
  {
    if StripPrefixMark(child).Some? {
      assert child == StripPrefixMark(child).value + ":*";
    }
    if StripPrefixMark(parent).Some? {
      assert parent == StripPrefixMark(parent).value + ":*";
    }
  }

  lemma {:induction false} RefusedIsUncovered<V>(parents: seq<CapabilityGrant<V>>, child: seq<CapabilityGrant<V>>)
    ensures FirstRefused(parents, child) == FirstUncovered(Patterns(parents), Patterns(child))
  {
    if child != [] {
      forall i | 0 <= i < |parents|
        ensures ScopeCovers(parents[i].pattern, child[0].pattern) <==> CapMatches(Patterns(parents)[i], child[0].pattern)
      {
        CoversIsMatches(parents[i].pattern, child[0].pattern);
      }
      assert Patterns(child)[1..] == Patterns(child[1..]);
      RefusedIsUncovered(parents, child[1..]);
    }
  }

  /** The two checks accept the same lists, and when they refuse, refuse the same pattern. */
  lemma ChecksAgree<V>(parent: ExecutionScope<V>, child: seq<CapabilityGrant<V>>, namespace: Option<string>)
    ensures ChildScope(parent, child, namespace).Ok?
       <==> Attenuate(Patterns(parent.capabilities), Patterns(child)).Ok?
    ensures ChildScope(parent, child, namespace).Err? && parent.capabilities != []
        ==> ChildScope(parent, child, namespace).error
            == Attenuate(Patterns(parent.capabilities), Patterns(child)).error
  {
    RefusedIsUncovered(parent.capabilities, child);
    if parent.capabilities == [] && child != [] {
      assert !AnyMatches([], Patterns(child)[0]);
    }
  }

  // The envelope's and the scope's access check.
  predicate EitherAllows<V>(scope: ExecutionScope<V>, name: string) {
    CheckTool(scope, name).Ok? || CheckAccess(Patterns(scope.capabilities), name).Ok?
  }

  predicate BothAllow<V>(scope: ExecutionScope<V>, name: string) {
    CheckTool(scope, name).Ok? && CheckAccess(Patterns(scope.capabilities), name).Ok?
  }

  // They ask the same question of a pattern list.
  lemma AccessIsMembership<V>(scope: ExecutionScope<V>, name: string)
    ensures EitherAllows(scope, name) ==> BothAllow(scope, name)
  {
  }

  /** `child_scope` is exact on tool names: accepted if and only if nothing is amplified. */
  lemma ChildScopeExact<V>(parent: ExecutionScope<V>, child: seq<CapabilityGrant<V>>, namespace: Option<string>)
    ensures ChildScope(parent, child, namespace).Ok? <==>
            forall name :: AnyMatches(Patterns(child), name) ==> CheckTool(parent, name).Ok?
    ensures ChildScope(parent, child, namespace).Ok? ==>
            forall name :: CheckTool(ChildScope(parent, child, namespace).value, name).Ok? ==> CheckTool(parent, name).Ok?
    ensures ChildScope(parent, child, namespace).Ok? ==>
              var scope := ChildScope(parent, child, namespace).value;
              && scope.capabilities == child && scope.depth == parent.depth + 1
              && scope.namespace == if namespace == None then parent.namespace else namespace.value
  {
    ChecksAgree(parent, child, namespace);
    AttenuateExact(Patterns(parent.capabilities), Patterns(child));
  }

  // ---- Derivation chains ----

  datatype Request<V> = Request(child: seq<CapabilityGrant<V>>, namespace: Option<string>)

  // Scopes derived one from the next; `None` as soon as one derivation is refused.
  function Derive<V>(root: ExecutionScope<V>, requests: seq<Request<V>>): Option<ExecutionScope<V>>
    decreases |requests|
  {
    if requests == [] then Some(root)
    else
      match ChildScope(root, requests[0].child, requests[0].namespace)
      case Err(_) => None
      case Ok(scope) => Derive(scope, requests[1..])
  }

  /** Along a chain of any length, what either check allows the last scope both allow every ancestor. */
  lemma {:induction false} ChainsOnlyAttenuate<V>(root: ExecutionScope<V>, requests: seq<Request<V>>, k: nat, name: string)
    requires k <= |requests| && Derive(root, requests).Some?
    requires EitherAllows(Derive(root, requests).value, name)
    ensures Derive(root, requests[..k]).Some?
    ensures BothAllow(Derive(root, requests[..k]).value, name)
    ensures Derive(root, requests).value.depth == root.depth + |requests|
    decreases |requests|, k
  {
    AccessIsMembership(root, name);
    if requests != [] {
      var scope := ChildScope(root, requests[0].child, requests[0].namespace).value;
      ChildScopeExact(root, requests[0].child, requests[0].namespace);
      if k == 0 {
        ChainsOnlyAttenuate(scope, requests[1..], 0, name);
        assert requests[1..][..0] == [];
        assert BothAllow(scope, name);
      } else {
        ChainsOnlyAttenuate(scope, requests[1..], k - 1, name);
        assert requests[..k][1..] == requests[1..][..k - 1];
      }
    }
  }
}
