/**
  Input resolution: references and templates in a step's inputs against the workflow state,
  and the theorem that what a step reads is what the dependency graph recorded for it.

  Rendering of anything but a bare reference is the template library's; it is a parameter.
 */
module Templates {
  import opened Wrappers
  import opened Graphs
  import opened Strings
  import opened Schema
  import opened Workflows
  import opened Compiler
  import opened DependencyGraph

  type Vars = map<string, Json>

  type Renderer = (string, Vars) -> Result<string, string>

  // `has_templates`
  predicate HasTemplates(s: string) {
    Contains(s, "{{") && Contains(s, "}}")
  }

  predicate IsIdentChar(c: char) {
    IsAlphanumeric(c) || c == '_'
  }

  predicate IsSegment(seg: string) {
    && seg != ""
    && (forall i :: 0 <= i < |seg| ==> IsIdentChar(seg[i]))
    && !('0' <= seg[0] <= '9')
  }

  // What is left between one leading `{{` and one trailing `}}`.
  function StripBraces(s: string): Option<string> {
    if "{{" <= s && EndsWith(s[2..], "}}") then Some(s[2..|s| - 2]) else None
  }

  // `try_pure_ref`.  The source's separate look for nested braces and operators comes first
  // and refuses nothing the identifier check would let through.
  function TryPureRef(s: string): Option<string> {
    match StripBraces(Trim(s))
    case None => None
    case Some(mid) =>
      var inner := Trim(mid);
      if Contains(inner, "{{") || Contains(inner, "}}") then None
      else if exists i :: 0 <= i < |inner| && inner[i] in "|()[]+-=<>," then None
      else if inner == "" then None
      else
        var segments := Split(inner, '.');
        if forall i :: 0 <= i < |segments| ==> IsSegment(segments[i]) then Some(inner) else None
  }

  function FieldOf(fields: seq<(string, Json)>, key: string): Option<Json> {
    if fields == [] then None
    else if fields[0].0 == key then Some(fields[0].1)
    else FieldOf(fields[1..], key)
  }

  // `current.get(part)`: only objects have named members.
  function Member(value: Json, key: string): Option<Json> {
    if value.JObj? then FieldOf(value.fields, key) else None
  }

  function WalkPath(value: Json, parts: seq<string>): Option<Json>
    decreases |parts|
  {
    if parts == [] then Some(value)
    else
      match Member(value, parts[0])
      case None => None
      case Some(next) => WalkPath(next, parts[1..])
  }

  // `resolve_ref`
  function ResolveRef(path: string, vars: Vars): Option<Json> {
    var parts := Split(path, '.');
    if parts[0] in vars then WalkPath(vars[parts[0]], parts[1..]) else None
  }

  // The loop of `resolve_ref`.
  method FollowPath(path: string, vars: Vars) returns (r: Option<Json>)
    ensures r == ResolveRef(path, vars)
  {
    var parts := Split(path, '.');
    if parts[0] !in vars {
      return None;
    }
    var current := vars[parts[0]];
    for i := 1 to |parts|
      invariant WalkPath(vars[parts[0]], parts[1..]) == WalkPath(current, parts[i..])
    {
      var next := Member(current, parts[i]);
      assert parts[i..][1..] == parts[i + 1..];
      if next.None? {
        return None;
      }
      current := next.value;
    }
    assert parts[|parts|..] == [];
    return Some(current);
  }

  // A bare reference that resolves keeps its type; everything else is rendered to a string.
  function ResolveText(render: Renderer, s: string, path: Option<string>, vars: Vars): Result<Json, string> {
    var found := if path.Some? then ResolveRef(path.value, vars) else None;
    if found.Some? then Ok(found.value)
    else
      match render(s, vars)
      case Err(e) => Err(e)
      case Ok(text) => Ok(JStr(text))
  }

  // `resolve_json_templates`
  function ResolveJson(render: Renderer, value: Json, vars: Vars): Result<Json, string>
    decreases value, 0
  {
    match value
    case JStr(s) =>
      if HasTemplates(s) then ResolveText(render, s, TryPureRef(s), vars) else Ok(value)
    case JArr(items) =>
      (match ResolveItems(render, items, vars)
       case Err(e) => Err(e)
       case Ok(resolved) => Ok(JArr(resolved)))
    case JObj(fields) =>
      (match ResolveFields(render, fields, vars)
       case Err(e) => Err(e)
       case Ok(resolved) => Ok(JObj(resolved)))
    case _ => Ok(value)
  }

  function ResolveItems(render: Renderer, items: seq<Json>, vars: Vars): Result<seq<Json>, string>
    decreases items, |items|
  {
    if items == [] then Ok([])
    else
      match ResolveJson(render, items[0], vars)
      case Err(e) => Err(e)
      case Ok(first) =>
        match ResolveItems(render, items[1..], vars)
        case Err(e) => Err(e)
        case Ok(rest) => Ok([first] + rest)
  }

  function ResolveFields(render: Renderer, fields: seq<(string, Json)>, vars: Vars): Result<seq<(string, Json)>, string>
    decreases fields, |fields|
  {
    if fields == [] then Ok([])
    else
      assert fields decreases to fields[0];
      assert fields[0] decreases to fields[0].1;
      match ResolveJson(render, fields[0].1, vars)
      case Err(e) => Err(e)
      case Ok(first) =>
        match ResolveFields(render, fields[1..], vars)
        case Err(e) => Err(e)
        case Ok(rest) => Ok([(fields[0].0, first)] + rest)
  }

  // `resolve_expr`
  function ResolveExpr(render: Renderer, expr: Expr, vars: Vars): Result<Json, string> {
    match expr
    case Literal(text) => Ok(JStr(text))
    case Ref(path) =>
      (match ResolveRef(path, vars)
       case None => Err("unresolved reference: " + path)
       case Some(value) => Ok(value))
    case Template(text) =>
      (match render(text, vars)
       case Err(e) => Err(e)
       case Ok(rendered) => Ok(JStr(rendered)))
    case JsonExpr(value) => ResolveJson(render, value, vars)
  }

  predicate LastOfItsKey(inputs: seq<(string, Expr)>, i: nat)
    requires i < |inputs|
  {
    forall j :: i < j < |inputs| ==> inputs[j].0 != inputs[i].0
  }

  // What resolving inputs means: the first error in order, or else one value for each key, that
  // of the last input under it.
  ghost predicate ResolvesTo(render: Renderer, inputs: seq<(string, Expr)>, vars: Vars, r: Result<Vars, string>) {
    match r
    case Err(e) =>
      exists i :: 0 <= i < |inputs| && ResolveExpr(render, inputs[i].1, vars) == Err(e)
               && forall j :: 0 <= j < i ==> ResolveExpr(render, inputs[j].1, vars).Ok?
    case Ok(values) =>
      && (forall i :: 0 <= i < |inputs| ==> ResolveExpr(render, inputs[i].1, vars).Ok?)
      && values.Keys == (set i | 0 <= i < |inputs| :: inputs[i].0)
      && forall i :: 0 <= i < |inputs| && LastOfItsKey(inputs, i) ==>
           inputs[i].0 in values && values[inputs[i].0] == ResolveExpr(render, inputs[i].1, vars).value
  }

  // `resolve_inputs`
  method ResolveInputs(render: Renderer, inputs: seq<(string, Expr)>, vars: Vars) returns (r: Result<Vars, string>)
    ensures ResolvesTo(render, inputs, vars, r)
  {
    var resolved: Vars := map[];
    for i := 0 to |inputs|
      invariant ResolvesTo(render, inputs[..i], vars, Ok(resolved))
    {
      assert forall j :: 0 <= j < i ==> inputs[..i][j] == inputs[j];
      var value := ResolveExpr(render, inputs[i].1, vars);
      if value.Err? {
        return Err(value.error);
      }
      OneMoreInput(render, inputs, vars, i, resolved, value.value);
      resolved := resolved[inputs[i].0 := value.value];
    }
    assert inputs[..|inputs|] == inputs;
    return Ok(resolved);
  }

  lemma OneMoreInput(render: Renderer, inputs: seq<(string, Expr)>, vars: Vars, i: nat, resolved: Vars, value: Json)
    requires i < |inputs| && ResolvesTo(render, inputs[..i], vars, Ok(resolved))
    requires ResolveExpr(render, inputs[i].1, vars) == Ok(value)
    ensures ResolvesTo(render, inputs[..i + 1], vars, Ok(resolved[inputs[i].0 := value]))
  {
    assert inputs[..i + 1] == inputs[..i] + [inputs[i]];
    Extend(render, inputs[..i], inputs[i].0, inputs[i].1, vars, resolved, value);
    assert (inputs[i].0, inputs[i].1) == inputs[i];
  }

  lemma Extend(render: Renderer, before: seq<(string, Expr)>, key: string, expr: Expr, vars: Vars, resolved: Vars, value: Json)
    requires ResolvesTo(render, before, vars, Ok(resolved)) && ResolveExpr(render, expr, vars) == Ok(value)
    ensures ResolvesTo(render, before + [(key, expr)], vars, Ok(resolved[key := value]))
  {
    var after, n := before + [(key, expr)], |before|;
    var values := resolved[key := value];
    assert forall j :: 0 <= j < n ==> after[j] == before[j];
    assert after[n] == (key, expr);
    forall j | 0 <= j < |after| ensures ResolveExpr(render, after[j].1, vars).Ok? {
      if j < n {
        assert ResolveExpr(render, before[j].1, vars).Ok?;
      }
    }
    KeysExtend(before, key, expr);
    forall j | 0 <= j < |after| && LastOfItsKey(after, j)
      ensures after[j].0 in values && values[after[j].0] == ResolveExpr(render, after[j].1, vars).value
    {
      if j < n {
        assert after[n].0 != after[j].0;
        LastBefore(before, key, expr, j);
        assert before[j].0 in resolved;
      }
    }
  }

  lemma KeysExtend(before: seq<(string, Expr)>, key: string, expr: Expr)
    ensures (set i | 0 <= i < |before + [(key, expr)]| :: (before + [(key, expr)])[i].0)
         == (set i | 0 <= i < |before| :: before[i].0) + {key}
  {
    var after := before + [(key, expr)];
    assert after[|before|].0 == key;
    assert forall i :: 0 <= i < |before| ==> after[i] == before[i];
  }

  lemma LastBefore(before: seq<(string, Expr)>, key: string, expr: Expr, j: nat)
    requires j < |before| && LastOfItsKey(before + [(key, expr)], j)
    ensures LastOfItsKey(before, j)
  {
    var after := before + [(key, expr)];
    forall k | j < k < |before| ensures before[k].0 != before[j].0 {
      assert after[k].0 != after[j].0;
    }
  }

  lemma {:induction false} HasLast(inputs: seq<(string, Expr)>, i: nat) returns (last: nat)
    requires i < |inputs|
    ensures last < |inputs| && inputs[last].0 == inputs[i].0 && LastOfItsKey(inputs, last)
    decreases |inputs| - i
  {
    if LastOfItsKey(inputs, i) {
      last := i;
    } else {
      var j :| i < j < |inputs| && inputs[j].0 == inputs[i].0;
      last := HasLast(inputs, j);
    }
  }

  /** So inputs resolve in one way only. */
  lemma ResolvesToOne(render: Renderer, inputs: seq<(string, Expr)>, vars: Vars, r: Result<Vars, string>, q: Result<Vars, string>)
    requires ResolvesTo(render, inputs, vars, r) && ResolvesTo(render, inputs, vars, q)
    ensures r == q
  {
    if r.Ok? && q.Ok? {
      forall key | key in r.value ensures r.value[key] == q.value[key] {
        var i :| 0 <= i < |inputs| && inputs[i].0 == key;
        var last := HasLast(inputs, i);
      }
      assert r.value == q.value;
    }
  }

  // Both states give the same inputs, or the same error.
  ghost predicate ResolvesAlike(render: Renderer, inputs: seq<(string, Expr)>, a: Vars, b: Vars) {
    forall r :: ResolvesTo(render, inputs, a, r) <==> ResolvesTo(render, inputs, b, r)
  }

  lemma AlikeByInput(render: Renderer, inputs: seq<(string, Expr)>, a: Vars, b: Vars)
    requires forall i :: 0 <= i < |inputs| ==> ResolveExpr(render, inputs[i].1, a) == ResolveExpr(render, inputs[i].1, b)
    ensures ResolvesAlike(render, inputs, a, b)
  {
    forall r ensures ResolvesTo(render, inputs, a, r) <==> ResolvesTo(render, inputs, b, r) {
      if ResolvesTo(render, inputs, a, r) {
        AlikeOneWay(render, inputs, a, b, r);
      }
      if ResolvesTo(render, inputs, b, r) {
        AlikeOneWay(render, inputs, b, a, r);
      }
    }
  }

  lemma AlikeOneWay(render: Renderer, inputs: seq<(string, Expr)>, a: Vars, b: Vars, r: Result<Vars, string>)
    requires forall i :: 0 <= i < |inputs| ==> ResolveExpr(render, inputs[i].1, a) == ResolveExpr(render, inputs[i].1, b)
    requires ResolvesTo(render, inputs, a, r)
    ensures ResolvesTo(render, inputs, b, r)
  {
    if r.Err? {
      var i :| 0 <= i < |inputs| && ResolveExpr(render, inputs[i].1, a) == Err(r.error)
        && forall j :: 0 <= j < i ==> ResolveExpr(render, inputs[j].1, a).Ok?;
      assert ResolveExpr(render, inputs[i].1, b) == Err(r.error);
    }
  }

  // ---- What a reference reads is what the graph extracts ----

  lemma {:induction false} TrimStartSplits(s: string) returns (pre: string)
    ensures s == pre + TrimStart(s) && forall i :: 0 <= i < |pre| ==> IsSpace(pre[i])
  {
    if s != "" && IsSpace(s[0]) {
      var rest := TrimStartSplits(s[1..]);
      pre := [s[0]] + rest;
      var t := TrimStart(s[1..]);
      assert s == [s[0]] + s[1..] && [s[0]] + (rest + t) == pre + t;
    } else {
      pre := "";
    }
  }

  lemma {:induction false} TrimEndSplits(s: string) returns (post: string)
    ensures s == TrimEnd(s) + post && forall i :: 0 <= i < |post| ==> IsSpace(post[i])
  {
    if s != "" && IsSpace(s[|s| - 1]) {
      var rest := TrimEndSplits(s[..|s| - 1]);
      post := rest + [s[|s| - 1]];
      var t := TrimEnd(s[..|s| - 1]);
      assert s == s[..|s| - 1] + [s[|s| - 1]] && (t + rest) + [s[|s| - 1]] == t + post;
    } else {
      post := "";
    }
  }

  lemma TrimSplits(s: string) returns (pre: string, post: string)
    ensures s == pre + Trim(s) + post
    ensures forall i :: 0 <= i < |pre| ==> IsSpace(pre[i])
    ensures forall i :: 0 <= i < |post| ==> IsSpace(post[i])
  {
    pre := TrimStartSplits(s);
    post := TrimEndSplits(TrimStart(s));
    assert pre + (Trim(s) + post) == pre + Trim(s) + post;
  }

  lemma NotThere(s: string, pat: string, i: nat)
    requires i < |s| && pat != "" && s[i] != pat[0]
    ensures !Occurs(s, pat, i)
  {
    assert i + |pat| <= |s| ==> s[i..i + |pat|][0] == s[i];
  }

  // The first place a pattern can start is where its first character first appears.
  lemma FirstAt(s: string, pat: string, from: nat, at: nat)
    requires pat != "" && from <= at && Occurs(s, pat, at)
    requires forall i :: from <= i < at ==> s[i] != pat[0]
    ensures Find(s, pat, from) == Some(at)
  {
    forall i | from <= i < at ensures !Occurs(s, pat, i) {
      NotThere(s, pat, i);
    }
    FindIsFirst(s, pat, from);
  }

  // One braced reference and nothing else: its root is the one root the graph sees.
  lemma BracedReference(s: string, pre: string, mid: string, post: string)
    requires s == pre + "{{" + mid + "}}" + post
    requires '{' !in pre && '}' !in mid && '{' !in post
    ensures ReferencesFrom(s, 0) == [UpTo(Trim(mid), '.')]
  {
    hide *;
    BracesOccur(s, pre, mid, post);
    OneReference(s, |pre|, |pre| + 2 + |mid|);
  }

  lemma OneReference(s: string, open: nat, close: nat)
    requires open + 2 <= close && Occurs(s, "{{", open) && Occurs(s, "}}", close)
    requires forall i :: 0 <= i < open ==> s[i] != '{'
    requires forall i :: open + 2 <= i < close ==> s[i] != '}'
    requires forall i :: close + 2 <= i < |s| ==> s[i] != '{'
    ensures ReferencesFrom(s, 0) == [UpTo(Trim(s[open + 2..close]), '.')]
  {
    hide *;
    FirstAt(s, "{{", 0, open);
    FirstAt(s, "}}", open + 2, close);
    FirstReference(s, open, close);
    NoMoreReferences(s, close + 2);
  }

  lemma FirstReference(s: string, open: nat, close: nat)
    requires Find(s, "{{", 0) == Some(open) && open + 2 <= close && Find(s, "}}", open + 2) == Some(close)
    ensures close + 2 <= |s|
    ensures ReferencesFrom(s, 0) == [UpTo(Trim(s[open + 2..close]), '.')] + ReferencesFrom(s, close + 2)
  {
    hide NextReference, Find, Occurs, Trim, UpTo;
    NextIs(s, open, close);
  }

  lemma NextIs(s: string, open: nat, close: nat)
    requires Find(s, "{{", 0) == Some(open) && open + 2 <= close && Find(s, "}}", open + 2) == Some(close)
    ensures NextReference(s, 0) == Some((UpTo(Trim(s[open + 2..close]), '.'), close + 2))
  {
    hide Find, Occurs, Trim, UpTo;
  }

  lemma NoMoreReferences(s: string, from: nat)
    requires from <= |s| && forall i :: from <= i < |s| ==> s[i] != '{'
    ensures ReferencesFrom(s, from) == []
  {
    forall i | from <= i <= |s| ensures !Occurs(s, "{{", i) {
      if i < |s| {
        NotThere(s, "{{", i);
      }
    }
    FindIsFirst(s, "{{", from);
  }

  lemma BracesOccur(s: string, pre: string, mid: string, post: string)
    requires s == pre + "{{" + mid + "}}" + post
    requires '{' !in pre && '}' !in mid && '{' !in post
    ensures Occurs(s, "{{", |pre|) && Occurs(s, "}}", |pre| + 2 + |mid|)
    ensures s[|pre| + 2..|pre| + 2 + |mid|] == mid
    ensures forall i :: 0 <= i < |pre| ==> s[i] != '{'
    ensures forall i :: |pre| + 2 <= i < |pre| + 2 + |mid| ==> s[i] != '}'
    ensures forall i :: |pre| + 2 + |mid| + 2 <= i < |s| ==> s[i] != '{'
  {
    forall i | |pre| + |mid| + 4 <= i < |s| ensures s[i] != '{' {
      assert s[i] == post[i - |pre| - |mid| - 4];
    }
    forall i | 0 <= i < |pre| ensures s[i] != '{' {
      assert s[i] == pre[i];
    }
    forall i | |pre| + 2 <= i < |pre| + 2 + |mid| ensures s[i] != '}' {
      assert s[i] == mid[i - |pre| - 2];
    }
  }

  lemma NoBraceInside(mid: string)
    requires '}' !in Trim(mid)
    ensures '}' !in mid
  {
    var pre, post := TrimSplits(mid);
    forall i | 0 <= i < |mid| ensures mid[i] != '}' {
      if i < |pre| {
        assert mid[i] == pre[i];
      } else if i < |pre| + |Trim(mid)| {
        assert mid[i] == Trim(mid)[i - |pre|];
      } else {
        assert mid[i] == post[i - |pre| - |Trim(mid)|];
      }
    }
  }

  // A character in no piece, and not the separator, is not in the text.
  lemma {:induction false} PiecesHoldAll(s: string, separator: char, c: char)
    requires c != separator
    requires forall piece :: piece in Split(s, separator) ==> c !in piece
    ensures c !in s
    decreases |s|
  {
    var head := UpTo(s, separator);
    assert head in Split(s, separator);
    if |head| < |s| {
      var rest := s[|head| + 1..];
      assert s == head + [separator] + rest;
      assert forall piece :: piece in Split(rest, separator) ==> piece in Split(s, separator);
      PiecesHoldAll(rest, separator, c);
    }
  }

  lemma SegmentsHoldNoBrace(inner: string)
    requires forall i :: 0 <= i < |Split(inner, '.')| ==> IsSegment(Split(inner, '.')[i])
    ensures '}' !in inner
  {
    PiecesHoldAll(inner, '.', '}');
  }

  lemma StripsTo(s: string)
    requires StripBraces(s).Some?
    ensures s == "{{" + StripBraces(s).value + "}}"
  {
    assert s[..2] == "{{" && s[2..][|s| - 4..] == "}}";
    assert s == s[..2] + s[2..|s| - 2] + s[|s| - 2..];
  }

  lemma PureRefShape(s: string) returns (mid: string)
    requires TryPureRef(s).Some?
    ensures Trim(s) == "{{" + mid + "}}" && TryPureRef(s).value == Trim(mid) && '}' !in mid
  {
    mid := StripBraces(Trim(s)).value;
    StripsTo(Trim(s));
    SegmentsHoldNoBrace(Trim(mid));
    NoBraceInside(mid);
  }

  lemma Regroup(a: string, mid: string, b: string)
    ensures a + ("{{" + mid + "}}") + b == a + "{{" + mid + "}}" + b
  {
  }

  /** The root of a bare reference is the one root the graph extracts from the string. */
  lemma PureRefRoot(s: string)
    requires TryPureRef(s).Some?
    ensures ReferencesFrom(s, 0) == [UpTo(TryPureRef(s).value, '.')]
  {
    var pre, post := TrimSplits(s);
    var mid := PureRefShape(s);
    Regroup(pre, mid, post);
    BracedReference(s, pre, mid, post);
  }

  lemma CompiledRefRoot(s: string)
    requires IsBraced(s) && ValueToExpr(JStr(s)).Ref?
    ensures ReferencesFrom(s, 0) == [UpTo(ValueToExpr(JStr(s)).path, '.')]
  {
    var mid := CompiledRefShape(s);
    BracedReference(s, "", mid, "");
  }

  lemma CompiledRefShape(s: string) returns (mid: string)
    requires IsBraced(s) && ValueToExpr(JStr(s)).Ref?
    ensures s == "" + "{{" + mid + "}}" + "" && ValueToExpr(JStr(s)).path == Trim(mid) && '}' !in mid
  {
    mid := s[2..|s| - 2];
    CompiledPathHoldsNoBrace(s);
    NoBraceInside(mid);
    BracedSplits(s);
  }

  lemma CompiledPathHoldsNoBrace(s: string)
    requires IsBraced(s) && ValueToExpr(JStr(s)).Ref?
    ensures ValueToExpr(JStr(s)).path == Trim(s[2..|s| - 2]) && '}' !in Trim(s[2..|s| - 2])
  {
    var path := Trim(s[2..|s| - 2]);
    CompiledRefPath(s);
    assert !IsPathChar('}');
    forall c | c in path ensures c != '}' {
      var i :| 0 <= i < |path| && path[i] == c;
    }
  }

  lemma CompiledRefPath(s: string)
    requires IsBraced(s) && ValueToExpr(JStr(s)).Ref?
    ensures ValueToExpr(JStr(s)).path == Trim(s[2..|s| - 2])
    ensures forall i :: 0 <= i < |ValueToExpr(JStr(s)).path| ==> IsPathChar(ValueToExpr(JStr(s)).path[i])
  {
  }

  lemma BracedSplits(s: string)
    requires |s| >= 4 && "{{" <= s && EndsWith(s, "}}")
    ensures s == "" + "{{" + s[2..|s| - 2] + "}}" + ""
  {
    assert s == s[..2] + s[2..|s| - 2] + s[|s| - 2..];
  }

  // ---- Footprints ----

  ghost predicate AgreeOn(a: Vars, b: Vars, keys: iset<string>) {
    forall k :: k in keys ==> (k in a <==> k in b) && (k in a ==> a[k] == b[k])
  }

  ghost function Roots(keys: set<string>): iset<string> {
    iset k | k in keys
  }

  // Every template string in the value is one bare reference.
  predicate PureOnly(value: Json) {
    match value
    case JStr(s) => HasTemplates(s) ==> TryPureRef(s).Some?
    case JArr(items) => forall i :: 0 <= i < |items| ==> PureOnly(items[i])
    case JObj(fields) => forall i :: 0 <= i < |fields| ==> PureOnly(fields[i].1)
    case _ => true
  }

  // Rendering one bare reference looks at nothing but its root.
  ghost predicate RendersLocally(render: Renderer) {
    forall s, a, b :: TryPureRef(s).Some? && AgreeOn(a, b, iset{UpTo(TryPureRef(s).value, '.')}) ==> render(s, a) == render(s, b)
  }

  lemma StringReadsReferences(render: Renderer, s: string, a: Vars, b: Vars)
    requires RendersLocally(render) && TryPureRef(s).Some? && AgreeOn(a, b, Roots(References(JStr(s))))
    ensures render(s, a) == render(s, b)
    ensures ResolveRef(TryPureRef(s).value, a) == ResolveRef(TryPureRef(s).value, b)
  {
    hide TryPureRef, ReferencesFrom;
    PureRefRoot(s);
    var root := UpTo(TryPureRef(s).value, '.');
    assert root in Roots(References(JStr(s)));
    assert AgreeOn(a, b, iset{root});
  }

  lemma PartsAgree(part: set<string>, whole: set<string>, a: Vars, b: Vars)
    requires part <= whole && AgreeOn(a, b, Roots(whole))
    ensures AgreeOn(a, b, Roots(part))
  {
  }

  lemma TextReadsReferences(render: Renderer, s: string, a: Vars, b: Vars)
    requires RendersLocally(render) && PureOnly(JStr(s)) && AgreeOn(a, b, Roots(References(JStr(s))))
    ensures ResolveJson(render, JStr(s), a) == ResolveJson(render, JStr(s), b)
  {
    JsonTextForm(render, s, a);
    JsonTextForm(render, s, b);
    if HasTemplates(s) {
      StringReadsReferences(render, s, a, b);
      SameText(render, s, TryPureRef(s), a, b);
    }
  }

  lemma JsonTextForm(render: Renderer, s: string, vars: Vars)
    ensures ResolveJson(render, JStr(s), vars) == if HasTemplates(s) then ResolveText(render, s, TryPureRef(s), vars) else Ok(JStr(s))
  {
  }

  lemma SameText(render: Renderer, s: string, path: Option<string>, a: Vars, b: Vars)
    requires render(s, a) == render(s, b) && (path.Some? ==> ResolveRef(path.value, a) == ResolveRef(path.value, b))
    ensures ResolveText(render, s, path, a) == ResolveText(render, s, path, b)
  {
  }

  lemma ItemsAgree(items: seq<Json>, a: Vars, b: Vars)
    requires AgreeOn(a, b, Roots(References(JArr(items))))
    ensures forall i :: 0 <= i < |items| ==> AgreeOn(a, b, Roots(References(items[i])))
  {
    forall i | 0 <= i < |items| ensures AgreeOn(a, b, Roots(References(items[i]))) {
      PartsAgree(References(items[i]), References(JArr(items)), a, b);
    }
  }

  lemma FieldsAgree(fields: seq<(string, Json)>, a: Vars, b: Vars)
    requires AgreeOn(a, b, Roots(References(JObj(fields))))
    ensures forall i :: 0 <= i < |fields| ==> AgreeOn(a, b, Roots(References(fields[i].1)))
  {
    forall i | 0 <= i < |fields| ensures AgreeOn(a, b, Roots(References(fields[i].1))) {
      PartsAgree(References(fields[i].1), References(JObj(fields)), a, b);
    }
  }

  lemma {:induction false} JsonReadsReferences(render: Renderer, value: Json, a: Vars, b: Vars)
    requires RendersLocally(render) && PureOnly(value) && AgreeOn(a, b, Roots(References(value)))
    ensures ResolveJson(render, value, a) == ResolveJson(render, value, b)
    decreases value, 1
  {
    match value {
      case JStr(s) =>
        TextReadsReferences(render, s, a, b);
      case JArr(items) =>
        ItemsAgree(items, a, b);
        ItemsReadReferences(render, value, items, a, b);
      case JObj(fields) =>
        FieldsAgree(fields, a, b);
        FieldsReadReferences(render, value, fields, a, b);
      case _ =>
    }
  }

  lemma {:induction false} ItemsReadReferences(render: Renderer, whole: Json, items: seq<Json>, a: Vars, b: Vars)
    requires RendersLocally(render)
    requires forall i :: 0 <= i < |items| ==> items[i] < whole && PureOnly(items[i]) && AgreeOn(a, b, Roots(References(items[i])))
    ensures ResolveItems(render, items, a) == ResolveItems(render, items, b)
    decreases whole, 0, |items|
  {
    if items != [] {
      JsonReadsReferences(render, items[0], a, b);
      ItemsReadReferences(render, whole, items[1..], a, b);
    }
  }

  lemma {:induction false} FieldsReadReferences(render: Renderer, whole: Json, fields: seq<(string, Json)>, a: Vars, b: Vars)
    requires RendersLocally(render)
    requires forall i :: 0 <= i < |fields| ==>
               fields[i].1 < whole && PureOnly(fields[i].1) && AgreeOn(a, b, Roots(References(fields[i].1)))
    ensures ResolveFields(render, fields, a) == ResolveFields(render, fields, b)
    decreases whole, 0, |fields|
  {
    if fields != [] {
      JsonReadsReferences(render, fields[0].1, a, b);
      FieldsReadReferences(render, whole, fields[1..], a, b);
    }
  }

  lemma RefReadsReferences(s: string, a: Vars, b: Vars)
    requires IsBraced(s) && ValueToExpr(JStr(s)).Ref? && AgreeOn(a, b, Roots(References(JStr(s))))
    ensures ResolveRef(ValueToExpr(JStr(s)).path, a) == ResolveRef(ValueToExpr(JStr(s)).path, b)
  {
    CompiledRefRoot(s);
    assert UpTo(ValueToExpr(JStr(s)).path, '.') in Roots(References(JStr(s)));
  }

  lemma TemplateReadsReferences(render: Renderer, s: string, a: Vars, b: Vars)
    requires RendersLocally(render) && PureOnly(JStr(s)) && AgreeOn(a, b, Roots(References(JStr(s))))
    requires ValueToExpr(JStr(s)).Template?
    ensures render(s, a) == render(s, b)
  {
    TemplateHasTemplates(s);
    StringReadsReferences(render, s, a, b);
  }

  lemma CompiledForms(value: Json)
    ensures match ValueToExpr(value)
            case Literal(_) => true
            case Ref(_) => value.JStr? && IsBraced(value.s)
            case Template(s) => value == JStr(s)
            case JsonExpr(v) => v == value
  {
  }

  /** What one compiled input evaluates to depends only on the roots the graph extracts from it. */
  lemma ExprReadsReferences(render: Renderer, value: Json, a: Vars, b: Vars)
    requires RendersLocally(render) && PureOnly(value) && AgreeOn(a, b, Roots(References(value)))
    ensures ResolveExpr(render, ValueToExpr(value), a) == ResolveExpr(render, ValueToExpr(value), b)
  {
    CompiledForms(value);
    var expr := ValueToExpr(value);
    if expr.Ref? {
      RefReadsReferences(value.s, a, b);
    } else if expr.Template? {
      TemplateReadsReferences(render, expr.text, a, b);
    } else if expr.JsonExpr? {
      JsonReadsReferences(render, value, a, b);
    }
  }

  lemma TemplateHasTemplates(s: string)
    requires ValueToExpr(JStr(s)).Template?
    ensures HasTemplates(s)
  {
    FindIsFirst(s, "{{", 0);
    FindIsFirst(s, "}}", 0);
    if IsBraced(s) {
      assert Occurs(s, "{{", 0) && Occurs(s, "}}", |s| - 2);
    }
  }

  // Keys a step may read besides its recorded dependencies: its own output, and anything that
  // is not a node (the workflow input, loop variables).
  ghost predicate AgreeOutsideNodes(schema: WorkflowSchema, name: string, a: Vars, b: Vars) {
    AgreeOn(a, b, iset k | k == name || k !in NodeNames(schema))
  }

  /**
    The step reads nothing but its recorded dependencies: two states that agree on `depends_on`,
    on the step's own output and on what is not a node give it the same inputs, or the same error.
   */
  ghost predicate ReadsOnlyRecorded(schema: WorkflowSchema, named: Named, step: Step) {
    forall render, a, b ::
      && RendersLocally(render)
      && AgreeOn(a, b, iset d | d in step.dependsOn)
      && AgreeOutsideNodes(schema, named.name, a, b)
      ==> ResolvesAlike(render, step.input, a, b)
  }

  // The nodes the value refers to, other than the one it stands in, are recorded dependencies.
  predicate NodesRecorded(schema: WorkflowSchema, named: Named, value: Json) {
    forall r :: r in References(value) && r in NodeNames(schema) && r != named.name ==>
      r in NodeDependencies(schema, named.name, named.node)
  }

  lemma RecordedRootsAgree(schema: WorkflowSchema, named: Named, step: Step, value: Json, a: Vars, b: Vars)
    requires StepFrom(schema, named, step) && NodesRecorded(schema, named, value)
    requires AgreeOn(a, b, iset d | d in step.dependsOn) && AgreeOutsideNodes(schema, named.name, a, b)
    ensures AgreeOn(a, b, Roots(References(value)))
  {
    forall r | r in References(value) ensures (r in a <==> r in b) && (r in a ==> a[r] == b[r]) {
      if r in NodeNames(schema) && r != named.name {
        assert r in NodeDependencies(schema, named.name, named.node);
        assert r in iset d | d in step.dependsOn;
      }
    }
  }

  /** A step whose `with` block holds only bare references reads nothing but its recorded dependencies. */
  lemma StepReadsRecordedDependencies(schema: WorkflowSchema, named: Named, step: Step)
    requires StepFrom(schema, named, step)
    requires named.node.with_.Some? && named.node.with_.value.JObj? && PureOnly(named.node.with_.value)
    ensures ReadsOnlyRecorded(schema, named, step)
  {
    var fields := named.node.with_.value.fields;
    forall render, a, b |
      && RendersLocally(render)
      && AgreeOn(a, b, iset d | d in step.dependsOn)
      && AgreeOutsideNodes(schema, named.name, a, b)
      ensures ResolvesAlike(render, step.input, a, b)
    {
      forall i | 0 <= i < |fields|
        ensures ResolveExpr(render, step.input[i].1, a) == ResolveExpr(render, step.input[i].1, b)
      {
        assert References(fields[i].1) <= References(named.node.with_.value);
        RecordedRootsAgree(schema, named, step, fields[i].1, a, b);
        ExprReadsReferences(render, fields[i].1, a, b);
      }
      AlikeByInput(render, step.input, a, b);
    }
  }

  /** So an output another node writes meanwhile cannot change what the step is given. */
  lemma ConcurrentWriteIsUnseen(
      render: Renderer, schema: WorkflowSchema, named: Named, step: Step, vars: Vars, other: string, output: Json)
    requires RendersLocally(render) && StepFrom(schema, named, step)
    requires named.node.with_.Some? && named.node.with_.value.JObj? && PureOnly(named.node.with_.value)
    requires other in NodeNames(schema) && other != named.name && other !in step.dependsOn
    ensures ResolvesAlike(render, step.input, vars[other := output], vars)
  {
    StepReadsRecordedDependencies(schema, named, step);
  }

  // ---- References in `return` ----

  // A renderer that insists on the root of a reference being there.
  function RenderPresent(s: string, vars: Vars): Result<string, string> {
    if TryPureRef(s).Some? && UpTo(TryPureRef(s).value, '.') in vars then Ok("") else Err("")
  }

  lemma RenderPresentIsLocal()
    ensures RendersLocally(RenderPresent)
  {
    forall s, a: Vars, b: Vars | TryPureRef(s).Some? && AgreeOn(a, b, iset{UpTo(TryPureRef(s).value, '.')})
      ensures RenderPresent(s, a) == RenderPresent(s, b)
    {
      assert UpTo(TryPureRef(s).value, '.') in iset{UpTo(TryPureRef(s).value, '.')};
    }
  }

  lemma NoTemplateNoReference(s: string)
    requires !HasTemplates(s)
    ensures ReferencesFrom(s, 0) == []
  {
    if Find(s, "{{", 0).Some? {
      var open := Find(s, "{{", 0).value;
      FindIsFirst(s, "}}", 0);
      FindIsFirst(s, "}}", open + 2);
    }
  }

  lemma TextNeedsItsRoot(s: string, vars: Vars)
    requires PureOnly(JStr(s))
    ensures ResolveJson(RenderPresent, JStr(s), vars).Ok? <==> References(JStr(s)) <= vars.Keys
    ensures HasTemplates(s) ==> (RenderPresent(s, vars).Ok? <==> References(JStr(s)) <= vars.Keys)
  {
    hide TryPureRef, ReferencesFrom, Contains, Split;
    JsonTextForm(RenderPresent, s, vars);
    if HasTemplates(s) {
      PureRefRoot(s);
      var root := UpTo(TryPureRef(s).value, '.');
      assert References(JStr(s)) == {root};
    } else {
      NoTemplateNoReference(s);
      assert References(JStr(s)) == {};
    }
  }

  // With it, a value resolves exactly when every root the graph extracts is there.
  lemma {:induction false} JsonNeedsItsRoots(value: Json, vars: Vars)
    requires PureOnly(value)
    ensures ResolveJson(RenderPresent, value, vars).Ok? <==> References(value) <= vars.Keys
    decreases value, 1
  {
    match value {
      case JStr(s) =>
        TextNeedsItsRoot(s, vars);
      case JArr(items) =>
        ItemsNeedTheirRoots(value, items, vars);
        RootsOfItems(items, vars.Keys);
      case JObj(fields) =>
        FieldsNeedTheirRoots(value, fields, vars);
        RootsOfFields(fields, vars.Keys);
      case _ =>
    }
  }

  lemma RootsOfItems(items: seq<Json>, keys: set<string>)
    ensures References(JArr(items)) <= keys <==> forall i :: 0 <= i < |items| ==> References(items[i]) <= keys
  {
    assert forall i :: 0 <= i < |items| ==> References(items[i]) <= References(JArr(items));
  }

  lemma RootsOfFields(fields: seq<(string, Json)>, keys: set<string>)
    ensures References(JObj(fields)) <= keys <==> forall i :: 0 <= i < |fields| ==> References(fields[i].1) <= keys
  {
    assert forall i :: 0 <= i < |fields| ==> References(fields[i].1) <= References(JObj(fields));
  }

  lemma {:induction false} ItemsNeedTheirRoots(whole: Json, items: seq<Json>, vars: Vars)
    requires forall i :: 0 <= i < |items| ==> items[i] < whole && PureOnly(items[i])
    ensures ResolveItems(RenderPresent, items, vars).Ok?
       <==> forall i :: 0 <= i < |items| ==> References(items[i]) <= vars.Keys
    decreases whole, 0, |items|
  {
    if items != [] {
      JsonNeedsItsRoots(items[0], vars);
      ItemsNeedTheirRoots(whole, items[1..], vars);
      assert forall i :: 1 <= i < |items| ==> items[i] == items[1..][i - 1];
    }
  }

  lemma {:induction false} FieldsNeedTheirRoots(whole: Json, fields: seq<(string, Json)>, vars: Vars)
    requires forall i :: 0 <= i < |fields| ==> fields[i].1 < whole && PureOnly(fields[i].1)
    ensures ResolveFields(RenderPresent, fields, vars).Ok?
       <==> forall i :: 0 <= i < |fields| ==> References(fields[i].1) <= vars.Keys
    decreases whole, 0, |fields|
  {
    if fields != [] {
      JsonNeedsItsRoots(fields[0].1, vars);
      FieldsNeedTheirRoots(whole, fields[1..], vars);
      assert forall i :: 1 <= i < |fields| ==> fields[i] == fields[1..][i - 1];
    }
  }

  // Objects nested so that a path leads through them.
  function Nest(parts: seq<string>): Json {
    if parts == [] then JNull else JObj([(parts[0], Nest(parts[1..]))])
  }

  lemma {:induction false} NestLeads(parts: seq<string>)
    ensures WalkPath(Nest(parts), parts).Some?
    decreases |parts|
  {
    if parts != [] {
      NestLeads(parts[1..]);
    }
  }

  // A state in which the value resolves, and in which it no longer does once a root is taken out.
  lemma RootMatters(value: Json, root: string) returns (vars: Vars)
    requires PureOnly(value) && root in References(value)
    ensures root in vars
    ensures ResolveExpr(RenderPresent, ValueToExpr(value), vars).Ok?
    ensures ResolveExpr(RenderPresent, ValueToExpr(value), vars - {root}).Err?
  {
    CompiledForms(value);
    if ValueToExpr(value).Ref? {
      var path := ValueToExpr(value).path;
      CompiledRefRoot(value.s);
      NestLeads(Split(path, '.')[1..]);
      vars := map[root := Nest(Split(path, '.')[1..])];
    } else {
      vars := map r | r in References(value) :: JNull;
      if value.JStr? {
        TextIsTemplate(value.s);
        TextNeedsItsRoot(value.s, vars);
        TextNeedsItsRoot(value.s, vars - {root});
      } else {
        JsonNeedsItsRoots(value, vars);
        JsonNeedsItsRoots(value, vars - {root});
      }
    }
  }

  lemma TextIsTemplate(s: string)
    requires References(JStr(s)) != {} && !ValueToExpr(JStr(s)).Ref?
    ensures HasTemplates(s) && ValueToExpr(JStr(s)) == Template(s)
  {
    if !HasTemplates(s) {
      NoTemplateNoReference(s);
    }
  }

  lemma OneInputDiffers(render: Renderer, key: string, expr: Expr, a: Vars, b: Vars)
    requires ResolveExpr(render, expr, a).Ok? && ResolveExpr(render, expr, b).Err?
    ensures !ResolvesAlike(render, [(key, expr)], a, b)
  {
    var inputs := [(key, expr)];
    var r: Result<Vars, string> := Err(ResolveExpr(render, expr, b).error);
    assert ResolveExpr(render, inputs[0].1, b) == Err(r.error);
    assert ResolvesTo(render, inputs, b, r);
    assert ResolveExpr(render, inputs[0].1, a).Ok?;
    assert !ResolvesTo(render, inputs, a, r);
  }

  /**
    A step that passes on a `return` of bare references reads nothing but its recorded dependencies
    if and only if the other nodes it refers to were recorded; only `with` ever records any.
   */
  lemma ReturnReadsRecordedIff(schema: WorkflowSchema, named: Named, step: Step)
    requires StepFrom(schema, named, step)
    requires named.node.do_.None? && !(named.node.with_.Some? && named.node.with_.value.JObj?)
    requires named.node.return_.Some? && PureOnly(named.node.return_.value)
    ensures ReadsOnlyRecorded(schema, named, step) <==> NodesRecorded(schema, named, named.node.return_.value)
  {
    var value := named.node.return_.value;
    assert step.input == [("__return__", ValueToExpr(value))];
    if NodesRecorded(schema, named, value) {
      RecordedReturnIsRead(schema, named, step, value);
    } else {
      var r :| r in References(value) && r in NodeNames(schema) && r != named.name
        && r !in NodeDependencies(schema, named.name, named.node);
      UnrecordedReturnIsRead(schema, named, step, value, r);
    }
  }

  lemma RecordedReturnIsRead(schema: WorkflowSchema, named: Named, step: Step, value: Json)
    requires StepFrom(schema, named, step) && step.input == [("__return__", ValueToExpr(value))]
    requires PureOnly(value) && NodesRecorded(schema, named, value)
    ensures ReadsOnlyRecorded(schema, named, step)
  {
    forall render, a, b |
      && RendersLocally(render)
      && AgreeOn(a, b, iset d | d in step.dependsOn)
      && AgreeOutsideNodes(schema, named.name, a, b)
      ensures ResolvesAlike(render, step.input, a, b)
    {
      RecordedRootsAgree(schema, named, step, value, a, b);
      ExprReadsReferences(render, value, a, b);
      AlikeByInput(render, step.input, a, b);
    }
  }

  lemma UnrecordedReturnIsRead(schema: WorkflowSchema, named: Named, step: Step, value: Json, root: string)
    requires StepFrom(schema, named, step) && step.input == [("__return__", ValueToExpr(value))]
    requires PureOnly(value) && root in References(value) && root in NodeNames(schema) && root != named.name
    requires root !in NodeDependencies(schema, named.name, named.node)
    ensures !ReadsOnlyRecorded(schema, named, step)
  {
    var a := RootMatters(value, root);
    RenderPresentIsLocal();
    AgreeWithout(schema, named, step, a, root);
    OneInputDiffers(RenderPresent, "__return__", ValueToExpr(value), a, a - {root});
  }

  lemma AgreeWithout(schema: WorkflowSchema, named: Named, step: Step, a: Vars, root: string)
    requires StepFrom(schema, named, step) && root in NodeNames(schema) && root != named.name
    requires root !in NodeDependencies(schema, named.name, named.node)
    ensures AgreeOn(a, a - {root}, iset d | d in step.dependsOn)
    ensures AgreeOutsideNodes(schema, named.name, a, a - {root})
  {
    assert root !in step.dependsOn;
  }

  lemma StripsToA()
    ensures StripBraces("{{a}}") == Some("a") && Trim("{{a}}") == "{{a}}" && Trim("a") == "a"
  {
    var s := "{{a}}";
    assert s[2..|s| - 2] == "a" && EndsWith(s[2..], "}}");
  }

  lemma BareReferenceToA()
    ensures TryPureRef("{{a}}") == Some("a")
  {
    hide StripBraces, Trim;
    StripsToA();
    assert Split("a", '.') == ["a"] && IsSegment("a");
    assert !Occurs("a", "{{", 0) && !Occurs("a", "{{", 1) && !Occurs("a", "}}", 0) && !Occurs("a", "}}", 1);
  }

  lemma ReferenceToA()
    ensures PureOnly(JStr("{{a}}")) && "a" in References(JStr("{{a}}"))
  {
    hide TryPureRef, Trim;
    BareReferenceToA();
    PureRefRoot("{{a}}");
    assert UpTo("a", '.') == "a";
  }

  /** Such nodes exist: one that passes another's output on through `return` alone depends on nothing. */
  lemma ReturnReferencesAreUntracked(schema: WorkflowSchema, named: Named, step: Step)
    requires StepFrom(schema, named, step) && named.name == "b" && "a" in NodeNames(schema)
    requires named.node.do_.None? && named.node.with_.None? && named.node.return_ == Some(JStr("{{a}}"))
    ensures NodeDependencies(schema, named.name, named.node) == {} && !ReadsOnlyRecorded(schema, named, step)
  {
    ReferenceToA();
    ReturnReadsRecordedIff(schema, named, step);
  }
}
