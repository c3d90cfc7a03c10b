/**
  What an input means, said on the YAML value: which texts are references, what chain of named
  members a reference follows, and what a resolved value looks like position by position.
 */
module TemplateMeaning {
  import opened Wrappers
  import opened Strings
  import opened Schema
  import opened Workflows
  import opened Compiler
  import opened DependencyGraph
  import opened Templates

  // ---- Where a path leads ----

  // `v` is what the object holds under the name.
  ghost predicate IsMember(o: Json, name: string, v: Json) {
    o.JObj? && exists j :: 0 <= j < |o.fields| && o.fields[j] == (name, v) && forall i :: 0 <= i < j ==> o.fields[i].0 != name
  }

  // A chain of values from `root` to `v`, each the named member of the one before.
  ghost predicate IsChain(chain: seq<Json>, root: Json, names: seq<string>, v: Json) {
    && |chain| == |names| + 1 && chain[0] == root && chain[|names|] == v
    && forall i :: 0 <= i < |names| ==> IsMember(chain[i], names[i], chain[i + 1])
  }

  ghost predicate Leads(root: Json, names: seq<string>, v: Json) {
    exists chain :: IsChain(chain, root, names, v)
  }

  ghost predicate Found(vars: Vars, parts: seq<string>, v: Json) {
    parts != [] && parts[0] in vars && Leads(vars[parts[0]], parts[1..], v)
  }

  lemma {:induction false} FieldIff(fields: seq<(string, Json)>, name: string, v: Json)
    ensures FieldOf(fields, name) == Some(v) <==> IsMember(JObj(fields), name, v)
  {
    if fields == [] {
    } else if fields[0].0 == name {
      assert fields[0] == (name, fields[0].1);
      if IsMember(JObj(fields), name, v) {
        var j :| 0 <= j < |fields| && fields[j] == (name, v) && forall i :: 0 <= i < j ==> fields[i].0 != name;
        assert j == 0;
      }
    } else {
      var rest := fields[1..];
      FieldIff(rest, name, v);
      FieldSkips(fields, name, v);
    }
  }

  lemma LaterMember(fields: seq<(string, Json)>, name: string, v: Json)
    requires fields != [] && fields[0].0 != name && IsMember(JObj(fields[1..]), name, v)
    ensures IsMember(JObj(fields), name, v)
  {
    var rest := fields[1..];
    var j :| 0 <= j < |rest| && rest[j] == (name, v) && forall i :: 0 <= i < j ==> rest[i].0 != name;
    assert fields[j + 1] == (name, v);
    assert forall i :: 0 < i < j + 1 ==> fields[i] == rest[i - 1];
  }

  lemma TailMember(fields: seq<(string, Json)>, name: string, v: Json)
    requires fields != [] && fields[0].0 != name && IsMember(JObj(fields), name, v)
    ensures IsMember(JObj(fields[1..]), name, v)
  {
    var j :| 0 <= j < |fields| && fields[j] == (name, v) && forall i :: 0 <= i < j ==> fields[i].0 != name;
    assert fields[1..][j - 1] == (name, v);
    assert forall i :: 0 <= i < j - 1 ==> fields[1..][i] == fields[i + 1];
  }

  lemma FieldSkips(fields: seq<(string, Json)>, name: string, v: Json)
    requires fields != [] && fields[0].0 != name
    ensures IsMember(JObj(fields), name, v) <==> IsMember(JObj(fields[1..]), name, v)
  {
    hide IsMember;
    if IsMember(JObj(fields[1..]), name, v) {
      LaterMember(fields, name, v);
    }
    if IsMember(JObj(fields), name, v) {
      TailMember(fields, name, v);
    }
  }

  lemma MemberIff(o: Json, name: string, v: Json)
    ensures Member(o, name) == Some(v) <==> IsMember(o, name, v)
  {
    if o.JObj? {
      FieldIff(o.fields, name, v);
    }
  }

  lemma ChainGrows(root: Json, names: seq<string>, next: Json, v: Json)
    requires names != [] && IsMember(root, names[0], next) && Leads(next, names[1..], v)
    ensures Leads(root, names, v)
  {
    hide IsMember;
    var chain :| IsChain(chain, next, names[1..], v);
    var whole := [root] + chain;
    forall i | 0 <= i < |names| ensures IsMember(whole[i], names[i], whole[i + 1]) {
      if i > 0 {
        assert IsMember(chain[i - 1], names[1..][i - 1], chain[i]);
      }
    }
    assert IsChain(whole, root, names, v);
  }

  lemma ChainTail(root: Json, names: seq<string>, v: Json) returns (next: Json)
    requires names != [] && Leads(root, names, v)
    ensures IsMember(root, names[0], next) && Leads(next, names[1..], v)
  {
    hide IsMember;
    var chain :| IsChain(chain, root, names, v);
    next := chain[1];
    var tail := chain[1..];
    forall i | 0 <= i < |names| - 1 ensures IsMember(tail[i], names[1..][i], tail[i + 1]) {
      assert IsMember(chain[i + 1], names[i + 1], chain[i + 2]);
    }
    assert IsChain(tail, next, names[1..], v);
  }

  lemma {:induction false} WalkIff(root: Json, names: seq<string>, v: Json)
    ensures WalkPath(root, names) == Some(v) <==> Leads(root, names, v)
    decreases |names|
  {
    hide IsMember, Member;
    if names == [] {
      if root == v {
        assert IsChain([v], root, names, v);
      }
    } else {
      if WalkPath(root, names) == Some(v) {
        var next := Member(root, names[0]).value;
        MemberIff(root, names[0], next);
        WalkIff(next, names[1..], v);
        ChainGrows(root, names, next, v);
      }
      if Leads(root, names, v) {
        var next := ChainTail(root, names, v);
        MemberIff(root, names[0], next);
        WalkIff(next, names[1..], v);
      }
    }
  }

  /** A reference resolves to `v` exactly when its parts lead to `v`. */
  lemma ReferenceIff(parts: seq<string>, vars: Vars, v: Json)
    requires parts != [] && NoneHolds(parts, '.')
    ensures ResolveRef(Join(parts, '.'), vars) == Some(v) <==> Found(vars, parts, v)
  {
    hide Split, Join, WalkPath, Leads;
    SplitJoin(parts, '.');
    if parts[0] in vars {
      WalkIff(vars[parts[0]], parts[1..], v);
    }
  }

  // ---- Which texts are references ----

  predicate IsWordChar(c: char) {
    'a' <= c <= 'z' || 'A' <= c <= 'Z' || '0' <= c <= '9' || c == '_'
  }

  predicate IsPart(part: string) {
    forall i :: 0 <= i < |part| ==> IsWordChar(part[i])
  }

  predicate IsIdentifier(part: string) {
    IsPart(part) && part != "" && !('0' <= part[0] <= '9')
  }

  predicate AreParts(parts: seq<string>) {
    parts != [] && forall i :: 0 <= i < |parts| ==> IsPart(parts[i])
  }

  predicate AreIdentifiers(parts: seq<string>) {
    parts != [] && forall i :: 0 <= i < |parts| ==> IsIdentifier(parts[i])
  }

  // Braces around the joined parts, with blanks inside.
  ghost predicate Braced(s: string, path: string) {
    exists pre, post :: AllSpace(pre) && AllSpace(post) && s == "{{" + (pre + path + post) + "}}"
  }

  // What the compiler takes for a reference.
  ghost predicate IsReference(s: string, parts: seq<string>) {
    AreParts(parts) && Braced(s, Join(parts, '.'))
  }

  // What resolution takes for one: identifiers only, and blanks around the braces too.
  ghost predicate IsBareReference(s: string, parts: seq<string>) {
    AreIdentifiers(parts) && exists a, t, b :: AllSpace(a) && AllSpace(b) && Braced(t, Join(parts, '.')) && s == a + t + b
  }

  lemma {:induction false} JoinedChars(parts: seq<string>, i: nat)
    requires AreParts(parts) && i < |Join(parts, '.')|
    ensures IsWordChar(Join(parts, '.')[i]) || Join(parts, '.')[i] == '.'
    decreases |parts|
  {
    if |parts| > 1 && i > |parts[0]| {
      JoinedChars(parts[1..], i - |parts[0]| - 1);
    }
  }

  lemma PathOfParts(parts: seq<string>)
    requires AreParts(parts)
    ensures NoneHolds(parts, '.') && Tight(Join(parts, '.'))
    ensures forall i :: 0 <= i < |Join(parts, '.')| ==> IsWordChar(Join(parts, '.')[i]) || Join(parts, '.')[i] == '.'
  {
    var path := Join(parts, '.');
    hide Join;
    forall i | 0 <= i < |path| ensures IsWordChar(path[i]) || path[i] == '.' {
      JoinedChars(parts, i);
    }
  }

  lemma PartsOfPath(path: string)
    requires forall i :: 0 <= i < |path| ==> IsPathChar(path[i])
    ensures AreParts(Split(path, '.')) && Join(Split(path, '.'), '.') == path
  {
    var parts := Split(path, '.');
    JoinSplit(path, '.');
    hide Split, Join;
    forall k, i | 0 <= k < |parts| && 0 <= i < |parts[k]| ensures IsWordChar(parts[k][i]) {
      PartInText(parts, '.', k, parts[k][i]);
      assert parts[k][i] in path && parts[k][i] != '.';
    }
  }

  lemma {:induction false} PartInText(parts: seq<string>, c: char, k: nat, d: char)
    requires k < |parts| && d in parts[k]
    ensures d in Join(parts, c)
    decreases |parts|
  {
    if k > 0 {
      PartInText(parts[1..], c, k - 1, d);
    }
  }

  lemma Inside(s: string, mid: string)
    requires s == "{{" + mid + "}}"
    ensures |s| >= 4 && s[2..|s| - 2] == mid && "{{" <= s && EndsWith(s, "}}") && EndsWith(s[2..], "}}")
  {
    assert s[2..] == mid + "}}";
    assert s[|s| - 2..] == "}}";
  }

  lemma NoBraces(mid: string)
    requires '{' !in mid && '}' !in mid
    ensures !Contains(mid, "{{") && !Contains(mid, "}}")
  {
    ContainsIff(mid, "{{");
    ContainsIff(mid, "}}");
    forall i: nat | i <= |mid| ensures !Occurs(mid, "{{", i) && !Occurs(mid, "}}", i) {
      if i < |mid| {
        NotThere(mid, "{{", i);
        NotThere(mid, "}}", i);
      }
    }
  }

  lemma PaddedHasNoBraces(pre: string, path: string, post: string)
    requires AllSpace(pre) && AllSpace(post)
    requires forall i :: 0 <= i < |path| ==> IsWordChar(path[i]) || path[i] == '.'
    ensures '{' !in pre + path + post && '}' !in pre + path + post
  {
    assert !IsSpace('{') && !IsSpace('}') && !IsWordChar('{') && !IsWordChar('}');
    forall c | c in pre + path + post ensures IsSpace(c) || IsWordChar(c) || c == '.' {
      assert c in pre || c in path || c in post;
    }
  }

  lemma ReferenceCompiles(s: string, parts: seq<string>)
    requires IsReference(s, parts)
    ensures ValueToExpr(JStr(s)) == Ref(Join(parts, '.'))
  {
    hide Join, Trim, Contains;
    var path := Join(parts, '.');
    PathOfParts(parts);
    var pre, post :| AllSpace(pre) && AllSpace(post) && s == "{{" + (pre + path + post) + "}}";
    PaddedHasNoBraces(pre, path, post);
    Inside(s, pre + path + post);
    NoBraces(pre + path + post);
    TrimDrops(pre, path, post);
  }

  lemma CompiledIsBraced(s: string)
    requires ValueToExpr(JStr(s)).Ref?
    ensures IsBraced(s)
  {
    hide IsBraced, Trim, Contains;
  }

  lemma CompiledIsReference(s: string) returns (parts: seq<string>)
    requires ValueToExpr(JStr(s)).Ref?
    ensures IsReference(s, parts) && ValueToExpr(JStr(s)).path == Join(parts, '.')
  {
    hide Join, Trim, Split, ValueToExpr, Contains, AreParts;
    CompiledIsBraced(s);
    BracedSplits(s);
    var mid := s[2..|s| - 2];
    CompiledRefPath(s);
    var pre, post := TrimSplits(mid);
    var path := Trim(mid);
    PartsOfPath(path);
    parts := Split(path, '.');
    assert AllSpace(pre) && AllSpace(post) && s == "{{" + (pre + path + post) + "}}";
    assert Braced(s, path);
  }

  /** Exactly these texts compile to references, and to these paths. */
  lemma ReferenceTextIff(s: string, path: string)
    ensures ValueToExpr(JStr(s)) == Ref(path) <==> exists parts :: IsReference(s, parts) && path == Join(parts, '.')
  {
    hide ValueToExpr, Join, IsReference;
    if ValueToExpr(JStr(s)) == Ref(path) {
      var parts := CompiledIsReference(s);
    }
    if parts :| IsReference(s, parts) && path == Join(parts, '.') {
      ReferenceCompiles(s, parts);
    }
  }

  lemma IdentifiersAreParts(parts: seq<string>)
    requires AreIdentifiers(parts)
    ensures AreParts(parts) && forall i :: 0 <= i < |parts| ==> IsSegment(parts[i])
  {
  }

  lemma NoOperators(path: string)
    requires forall i :: 0 <= i < |path| ==> IsWordChar(path[i]) || path[i] == '.'
    ensures !(exists i :: 0 <= i < |path| && path[i] in "|()[]+-=<>,")
  {
    forall c | IsWordChar(c) || c == '.' ensures c !in "|()[]+-=<>," {
    }
  }

  lemma {:induction false} JoinedNotEmpty(parts: seq<string>)
    requires AreIdentifiers(parts)
    ensures Join(parts, '.') != ""
  {
  }

  lemma BracesAreNoBlanks()
    ensures !IsSpace('{') && !IsSpace('}')
  {
  }

  lemma BracesStrip(t: string, mid: string)
    requires t == "{{" + mid + "}}"
    ensures Tight(t) && StripBraces(t) == Some(mid)
  {
    hide IsSpace;
    BracesAreNoBlanks();
    Inside(t, mid);
    assert t[0] == '{' && t[|t| - 1] == '}';
  }

  lemma BracedShape(t: string, path: string)
    requires Braced(t, path) && Tight(path)
    ensures Tight(t) && StripBraces(t).Some? && Trim(StripBraces(t).value) == path
  {
    hide Trim, StripBraces, Tight, AllSpace;
    var pre, post :| AllSpace(pre) && AllSpace(post) && t == "{{" + (pre + path + post) + "}}";
    BracesStrip(t, pre + path + post);
    TrimDrops(pre, path, post);
  }

  lemma BareShape(s: string, path: string, a: string, t: string, b: string)
    requires AllSpace(a) && AllSpace(b) && Braced(t, path) && s == a + t + b && Tight(path)
    ensures Trim(s) == t && StripBraces(t).Some? && Trim(StripBraces(t).value) == path
  {
    hide Trim, StripBraces, Tight, Braced;
    BracedShape(t, path);
    TrimDrops(a, t, b);
  }

  // What the identifier check accepts, once the braces are off.
  lemma PathIsPure(s: string, parts: seq<string>)
    requires AreIdentifiers(parts)
    requires StripBraces(Trim(s)).Some? && Trim(StripBraces(Trim(s)).value) == Join(parts, '.')
    ensures TryPureRef(s) == Some(Join(parts, '.'))
  {
    hide Join, Trim, StripBraces, Contains, Split;
    var path := Join(parts, '.');
    IdentifiersAreParts(parts);
    PathOfParts(parts);
    JoinedNotEmpty(parts);
    SplitJoin(parts, '.');
    PaddedHasNoBraces("", path, "");
    assert "" + path + "" == path;
    NoBraces(path);
    NoOperators(path);
  }

  lemma BareIsPure(s: string, parts: seq<string>)
    requires IsBareReference(s, parts)
    ensures TryPureRef(s) == Some(Join(parts, '.'))
  {
    hide Join, Trim, TryPureRef, StripBraces, Braced;
    var path := Join(parts, '.');
    var a, t, b :| AllSpace(a) && AllSpace(b) && Braced(t, path) && s == a + t + b;
    IdentifiersAreParts(parts);
    PathOfParts(parts);
    BareShape(s, path, a, t, b);
    PathIsPure(s, parts);
  }

  lemma PureParts(s: string)
    requires TryPureRef(s).Some?
    ensures AreIdentifiers(Split(TryPureRef(s).value, '.'))
  {
    hide StripBraces, Trim, Contains, Split;
    var parts := Split(TryPureRef(s).value, '.');
    forall i | 0 <= i < |parts| ensures IsIdentifier(parts[i]) {
      assert IsSegment(parts[i]);
    }
  }

  lemma PureIsBare(s: string) returns (parts: seq<string>)
    requires TryPureRef(s).Some?
    ensures IsBareReference(s, parts) && TryPureRef(s).value == Join(parts, '.')
  {
    hide Join, Trim, Split, TryPureRef;
    var path := TryPureRef(s).value;
    parts := Split(path, '.');
    PureParts(s);
    JoinSplit(path, '.');
    var a, b := TrimSplits(s);
    var mid := PureRefShape(s);
    var pre, post := TrimSplits(mid);
    assert AllSpace(pre) && AllSpace(post) && AllSpace(a) && AllSpace(b);
    var t := "{{" + (pre + path + post) + "}}";
    assert Braced(t, path);
    assert s == a + t + b;
  }

  /** Exactly these texts are bare references inside a value. */
  lemma BareTextIff(s: string, path: string)
    ensures TryPureRef(s) == Some(path) <==> exists parts :: IsBareReference(s, parts) && path == Join(parts, '.')
  {
    hide TryPureRef, Join, IsBareReference;
    if TryPureRef(s) == Some(path) {
      var parts := PureIsBare(s);
    }
    if parts :| IsBareReference(s, parts) && path == Join(parts, '.') {
      BareIsPure(s, parts);
    }
  }

  // ---- What a value resolves to ----

  predicate HoldsTemplate(s: string) {
    Holds(s, "{{") && Holds(s, "}}")
  }

  predicate RendersTo(render: Renderer, s: string, vars: Vars, r: Json) {
    r.JStr? && render(s, vars) == Ok(r.s)
  }

  // The text is a bare reference and its parts lead to `v`, which keeps its type.
  ghost predicate Refers(s: string, vars: Vars, v: Json) {
    exists parts :: IsBareReference(s, parts) && Found(vars, parts, v)
  }

  /**
    `r` is what the value stands for: a bare reference its referent, another template its
    rendering, everything else itself, every key and position where it was.
   */
  ghost predicate Means(render: Renderer, value: Json, vars: Vars, r: Json) {
    match value
    case JStr(s) =>
      if !HoldsTemplate(s) then r == value
      else Refers(s, vars, r) || ((forall v :: !Refers(s, vars, v)) && RendersTo(render, s, vars, r))
    case JArr(items) =>
      r.JArr? && |r.items| == |items| && forall i :: 0 <= i < |items| ==> Means(render, items[i], vars, r.items[i])
    case JObj(fields) =>
      && r.JObj? && |r.fields| == |fields|
      && forall i :: 0 <= i < |fields| ==> r.fields[i].0 == fields[i].0 && Means(render, fields[i].1, vars, r.fields[i].1)
    case _ => r == value
  }

  lemma BareParts(s: string, parts: seq<string>)
    requires IsBareReference(s, parts)
    ensures parts != [] && NoneHolds(parts, '.')
  {
    IdentifiersAreParts(parts);
    PathOfParts(parts);
  }

  lemma RefersIff(s: string, vars: Vars, v: Json)
    ensures Refers(s, vars, v) <==> TryPureRef(s).Some? && ResolveRef(TryPureRef(s).value, vars) == Some(v)
  {
    hide TryPureRef, ResolveRef, Join, IsBareReference, Found;
    if Refers(s, vars, v) {
      var parts :| IsBareReference(s, parts) && Found(vars, parts, v);
      BareParts(s, parts);
      BareIsPure(s, parts);
      ReferenceIff(parts, vars, v);
    }
    if TryPureRef(s).Some? && ResolveRef(TryPureRef(s).value, vars) == Some(v) {
      var parts := PureIsBare(s);
      BareParts(s, parts);
      ReferenceIff(parts, vars, v);
    }
  }

  lemma TextMeans(render: Renderer, s: string, vars: Vars, r: Json)
    ensures ResolveJson(render, JStr(s), vars) == Ok(r) <==> Means(render, JStr(s), vars, r)
  {
    JsonTextForm(render, s, vars);
    ContainsIff(s, "{{");
    ContainsIff(s, "}}");
    hide TryPureRef, ResolveRef, Refers, Contains, Holds;
    forall v ensures Refers(s, vars, v) <==> TryPureRef(s).Some? && ResolveRef(TryPureRef(s).value, vars) == Some(v) {
      RefersIff(s, vars, v);
    }
    if TryPureRef(s).Some? && ResolveRef(TryPureRef(s).value, vars).Some? {
      assert Refers(s, vars, ResolveRef(TryPureRef(s).value, vars).value);
    }
  }

  /** A value inside an input resolves to exactly what it stands for. */
  lemma {:induction false} JsonMeans(render: Renderer, value: Json, vars: Vars, r: Json)
    ensures ResolveJson(render, value, vars) == Ok(r) <==> Means(render, value, vars, r)
    decreases value, 1
  {
    match value {
      case JStr(s) => TextMeans(render, s, vars, r);
      case JArr(items) =>
        ItemsMean(render, value, items, vars, if r.JArr? then r.items else []);
      case JObj(fields) =>
        FieldsMean(render, value, fields, vars, if r.JObj? then r.fields else []);
      case _ =>
    }
  }

  lemma {:induction false} ItemsMean(render: Renderer, whole: Json, items: seq<Json>, vars: Vars, out: seq<Json>)
    requires forall i :: 0 <= i < |items| ==> items[i] < whole
    ensures ResolveItems(render, items, vars) == Ok(out)
       <==> |out| == |items| && forall i :: 0 <= i < |items| ==> Means(render, items[i], vars, out[i])
    decreases whole, 0, |items|
  {
    hide Means;
    if items != [] {
      if out == [] {
        assert ResolveItems(render, items, vars) != Ok(out);
      } else {
        JsonMeans(render, items[0], vars, out[0]);
        ItemsMean(render, whole, items[1..], vars, out[1..]);
        assert out == [out[0]] + out[1..];
        assert forall i :: 1 <= i < |items| ==> items[i] == items[1..][i - 1];
        assert forall i :: 1 <= i < |out| ==> out[i] == out[1..][i - 1];
      }
    }
  }

  lemma {:induction false} FieldsMean(
      render: Renderer, whole: Json, fields: seq<(string, Json)>, vars: Vars, out: seq<(string, Json)>)
    requires forall i :: 0 <= i < |fields| ==> fields[i].1 < whole
    ensures ResolveFields(render, fields, vars) == Ok(out)
       <==> |out| == |fields|
            && forall i :: 0 <= i < |fields| ==> out[i].0 == fields[i].0 && Means(render, fields[i].1, vars, out[i].1)
    decreases whole, 0, |fields|
  {
    hide Means;
    if fields != [] {
      if out == [] {
        assert ResolveFields(render, fields, vars) != Ok(out);
      } else {
        JsonMeans(render, fields[0].1, vars, out[0].1);
        FieldsMean(render, whole, fields[1..], vars, out[1..]);
        assert out == [out[0]] + out[1..];
        assert out[0] == (out[0].0, out[0].1);
        assert forall i :: 1 <= i < |fields| ==> fields[i] == fields[1..][i - 1];
        assert forall i :: 1 <= i < |out| ==> out[i] == out[1..][i - 1];
      }
    }
  }

  // ---- What an input is given ----

  // What a value of a `with` block gives the tool.
  ghost predicate Gives(render: Renderer, value: Json, vars: Vars, r: Json) {
    match value
    case JStr(s) =>
      if exists parts :: IsReference(s, parts) then exists parts :: IsReference(s, parts) && Found(vars, parts, r)
      else if HoldsTemplate(s) then RendersTo(render, s, vars, r)
      else r == value
    case _ => Means(render, value, vars, r)
  }

  lemma ReferenceGives(render: Renderer, s: string, parts: seq<string>, vars: Vars, r: Json)
    requires IsReference(s, parts)
    ensures ResolveExpr(render, ValueToExpr(JStr(s)), vars) == Ok(r) <==> Found(vars, parts, r)
    ensures (forall v :: !Found(vars, parts, v)) ==>
              ResolveExpr(render, ValueToExpr(JStr(s)), vars) == Err("unresolved reference: " + Join(parts, '.'))
  {
    hide Join, ResolveRef, ValueToExpr, Found;
    PathOfParts(parts);
    ReferenceCompiles(s, parts);
    forall v ensures ResolveRef(Join(parts, '.'), vars) == Some(v) <==> Found(vars, parts, v) {
      ReferenceIff(parts, vars, v);
    }
    if ResolveRef(Join(parts, '.'), vars).Some? {
      assert Found(vars, parts, ResolveRef(Join(parts, '.'), vars).value);
    }
  }

  lemma PlainCompiles(s: string)
    requires !ValueToExpr(JStr(s)).Ref?
    ensures ValueToExpr(JStr(s)) == if HoldsTemplate(s) then Template(s) else Literal(s)
  {
    ContainsIff(s, "{{");
    ContainsIff(s, "}}");
    if IsBraced(s) {
      assert Occurs(s, "{{", 0) && Occurs(s, "}}", |s| - 2);
    }
  }

  lemma SameParts(s: string, a: seq<string>, b: seq<string>)
    requires IsReference(s, a) && IsReference(s, b)
    ensures a == b
  {
    hide Join, Split, ValueToExpr;
    ReferenceCompiles(s, a);
    ReferenceCompiles(s, b);
    PathOfParts(a);
    PathOfParts(b);
    SplitJoin(a, '.');
    SplitJoin(b, '.');
  }

  /**
    What a compiled input resolves to, errors left: a reference its referent with its own type,
    a text with other templates its rendering, any other text itself, a structure position by
    position.  There is no other result.
   */
  lemma InputGives(render: Renderer, value: Json, vars: Vars, r: Json)
    ensures ResolveExpr(render, ValueToExpr(value), vars) == Ok(r) <==> Gives(render, value, vars, r)
  {
    match value {
      case JStr(s) =>
        hide Found, IsReference, HoldsTemplate;
        if ValueToExpr(value).Ref? {
          var parts := CompiledIsReference(s);
          ReferenceGives(render, s, parts, vars, r);
          if other :| IsReference(s, other) && Found(vars, other, r) {
            SameParts(s, parts, other);
          }
        } else {
          if parts :| IsReference(s, parts) {
            ReferenceCompiles(s, parts);
          }
          PlainCompiles(s);
        }
      case _ => JsonMeans(render, value, vars, r);
    }
  }

  /** The inputs of a `with` object: exactly its keys, each with what its last value gives. */
  lemma WithGives(render: Renderer, fields: seq<(string, Json)>, vars: Vars, values: Vars)
    requires ResolvesTo(render, CompileFields(fields), vars, Ok(values))
    ensures values.Keys == set i | 0 <= i < |fields| :: fields[i].0
    ensures forall i :: 0 <= i < |fields| && (forall j :: i < j < |fields| ==> fields[j].0 != fields[i].0) ==>
              fields[i].0 in values && Gives(render, fields[i].1, vars, values[fields[i].0])
  {
    hide ResolveExpr, ValueToExpr, Gives;
    var inputs := CompileFields(fields);
    assert forall i :: 0 <= i < |fields| ==> inputs[i].0 == fields[i].0;
    forall i | 0 <= i < |fields| && (forall j :: i < j < |fields| ==> fields[j].0 != fields[i].0)
      ensures fields[i].0 in values && Gives(render, fields[i].1, vars, values[fields[i].0])
    {
      assert LastOfItsKey(inputs, i);
      InputGives(render, fields[i].1, vars, values[fields[i].0]);
    }
  }

  ghost predicate GivesNothing(render: Renderer, value: Json, vars: Vars) {
    forall r :: !Gives(render, value, vars, r)
  }

  lemma NothingIff(render: Renderer, value: Json, vars: Vars)
    ensures ResolveExpr(render, ValueToExpr(value), vars).Err? <==> GivesNothing(render, value, vars)
  {
    hide ResolveExpr, ValueToExpr, Gives;
    var result := ResolveExpr(render, ValueToExpr(value), vars);
    forall r ensures result == Ok(r) <==> Gives(render, value, vars, r) {
      InputGives(render, value, vars, r);
    }
    if result.Ok? {
      assert Gives(render, value, vars, result.value);
    }
  }

  /** They fail exactly when some value gives nothing. */
  lemma WithFailsIff(render: Renderer, fields: seq<(string, Json)>, vars: Vars)
    ensures (exists e :: ResolvesTo(render, CompileFields(fields), vars, Err(e)))
       <==> exists i :: 0 <= i < |fields| && GivesNothing(render, fields[i].1, vars)
  {
    hide ResolveExpr, ValueToExpr, GivesNothing;
    var inputs := CompileFields(fields);
    if e :| ResolvesTo(render, inputs, vars, Err(e)) {
      var i :| 0 <= i < |inputs| && ResolveExpr(render, inputs[i].1, vars) == Err(e);
      NothingIff(render, fields[i].1, vars);
    }
    if i :| 0 <= i < |fields| && GivesNothing(render, fields[i].1, vars) {
      NothingIff(render, fields[i].1, vars);
      var first := FirstFailing(render, inputs, vars, i);
      assert ResolvesTo(render, inputs, vars, Err(ResolveExpr(render, inputs[first].1, vars).error));
    }
  }

  lemma {:induction false} FirstFailing(render: Renderer, inputs: seq<(string, Expr)>, vars: Vars, i: nat) returns (first: nat)
    requires i < |inputs| && ResolveExpr(render, inputs[i].1, vars).Err?
    ensures first <= i && ResolveExpr(render, inputs[first].1, vars).Err?
    ensures forall j :: 0 <= j < first ==> ResolveExpr(render, inputs[j].1, vars).Ok?
  {
    if j :| 0 <= j < i && ResolveExpr(render, inputs[j].1, vars).Err? {
      first := FirstFailing(render, inputs, vars, j);
    } else {
      first := i;
    }
  }

  // ---- What the dependency graph reads off a text ----

  // A hole `{{ mid }}` in a text and what stands after it.
  datatype Hole = Hole(mid: string, after: string)

  function Assemble(before: string, holes: seq<Hole>): string
    decreases |holes|
  {
    if holes == [] then before
    else before + "{{" + holes[0].mid + "}}" + Assemble(holes[0].after, holes[1..])
  }

  predicate PlainHoles(before: string, holes: seq<Hole>) {
    '{' !in before && forall i :: 0 <= i < |holes| ==> '}' !in holes[i].mid && '{' !in holes[i].after
  }

  function RootOf(mid: string): string {
    UpTo(Trim(mid), '.')
  }

  /** The root of what stands in a hole is its first part. */
  lemma RootIs(pre: string, parts: seq<string>, post: string)
    requires AllSpace(pre) && AllSpace(post) && parts != [] && NoneHolds(parts, '.') && Tight(Join(parts, '.'))
    ensures RootOf(pre + Join(parts, '.') + post) == parts[0]
  {
    TrimDrops(pre, Join(parts, '.'), post);
    SplitJoin(parts, '.');
    assert Split(Join(parts, '.'), '.')[0] == UpTo(Join(parts, '.'), '.');
  }

  lemma NextHole(s: string, start: nat, open: nat, close: nat)
    requires start <= open && open + 2 <= close
    requires Occurs(s, "{{", open) && Occurs(s, "}}", close)
    requires forall i :: start <= i < open ==> s[i] != '{'
    requires forall i :: open + 2 <= i < close ==> s[i] != '}'
    ensures close + 2 <= |s|
    ensures ReferencesFrom(s, start) == [RootOf(s[open + 2..close])] + ReferencesFrom(s, close + 2)
  {
    hide Trim, UpTo, Find;
    FirstAt(s, "{{", start, open);
    FirstAt(s, "}}", open + 2, close);
    assert NextReference(s, start) == Some((RootOf(s[open + 2..close]), close + 2));
  }

  lemma HolePlaces(done: string, before: string, mid: string, rest: string)
    requires '{' !in before && '}' !in mid
    ensures var s, open := done + (before + "{{" + mid + "}}" + rest), |done| + |before|;
      && Occurs(s, "{{", open) && Occurs(s, "}}", open + 2 + |mid|)
      && s[open + 2..open + 2 + |mid|] == mid
      && (forall i :: |done| <= i < open ==> s[i] != '{')
      && (forall i :: open + 2 <= i < open + 2 + |mid| ==> s[i] != '}')
  {
    var s, open := done + (before + "{{" + mid + "}}" + rest), |done| + |before|;
    forall i | |done| <= i < open ensures s[i] != '{' {
      assert s[i] == before[i - |done|];
    }
    forall i | open + 2 <= i < open + 2 + |mid| ensures s[i] != '}' {
      assert s[i] == mid[i - open - 2];
    }
  }

  function Roots(holes: seq<Hole>): (roots: seq<string>)
    ensures |roots| == |holes| && forall i :: 0 <= i < |holes| ==> roots[i] == RootOf(holes[i].mid)
  {
    seq(|holes|, i requires 0 <= i < |holes| => RootOf(holes[i].mid))
  }

  lemma RootsMore(holes: seq<Hole>)
    requires holes != []
    ensures Roots(holes) == [RootOf(holes[0].mid)] + Roots(holes[1..])
  {
    hide RootOf;
  }

  lemma AssembleMore(before: string, holes: seq<Hole>)
    requires holes != [] && PlainHoles(before, holes)
    ensures Assemble(before, holes) == before + "{{" + holes[0].mid + "}}" + Assemble(holes[0].after, holes[1..])
    ensures PlainHoles(holes[0].after, holes[1..]) && '{' !in before && '}' !in holes[0].mid
  {
  }

  lemma HoleEnds(done: string, before: string, mid: string, rest: string) returns (next: string)
    ensures done + (before + "{{" + mid + "}}" + rest) == next + rest
    ensures |next| == |done| + |before| + 2 + |mid| + 2
  {
    next := done + before + "{{" + mid + "}}";
  }

  lemma {:induction false} ReferencesAfter(done: string, before: string, holes: seq<Hole>)
    requires PlainHoles(before, holes)
    ensures ReferencesFrom(done + Assemble(before, holes), |done|) == Roots(holes)
    decreases |holes|
  {
    hide *;
    if holes == [] {
      assert holes == [];
      NothingAfter(done, before);
      assert Roots(holes) == [];
    } else {
      var mid, rest := holes[0].mid, Assemble(holes[0].after, holes[1..]);
      AssembleMore(before, holes);
      HolePlaces(done, before, mid, rest);
      var next := HoleEnds(done, before, mid, rest);
      ReferencesAfter(next, holes[0].after, holes[1..]);
      NextHole(done + Assemble(before, holes), |done|, |done| + |before|, |done| + |before| + 2 + |mid|);
      RootsMore(holes);
    }
  }

  lemma NothingAfter(done: string, before: string)
    requires PlainHoles(before, [])
    ensures ReferencesFrom(done + Assemble(before, []), |done|) == []
  {
    var s := done + before;
    assert forall i :: |done| <= i < |s| ==> s[i] == before[i - |done|];
    NoMoreReferences(s, |done|);
  }

  /** What the graph extracts from a text are the roots of its holes, in order and nothing else. */
  lemma ReferencesOfText(before: string, holes: seq<Hole>)
    requires PlainHoles(before, holes)
    ensures |ReferencesFrom(Assemble(before, holes), 0)| == |holes|
    ensures forall i :: 0 <= i < |holes| ==> ReferencesFrom(Assemble(before, holes), 0)[i] == RootOf(holes[i].mid)
  {
    hide ReferencesFrom, RootOf;
    ReferencesAfter("", before, holes);
    assert "" + Assemble(before, holes) == Assemble(before, holes);
  }

  // The text stands somewhere inside the value; keys are not texts.
  ghost predicate TextIn(value: Json, s: string) {
    match value
    case JStr(text) => text == s
    case JArr(items) => exists i :: 0 <= i < |items| && TextIn(items[i], s)
    case JObj(fields) => exists i :: 0 <= i < |fields| && TextIn(fields[i].1, s)
    case _ => false
  }

  lemma {:induction false} ReferencesAreInTexts(value: Json, r: string)
    ensures r in References(value) <==> exists s :: TextIn(value, s) && r in ReferencesFrom(s, 0)
    decreases value
  {
    hide ReferencesFrom;
    match value {
      case JStr(text) => assert TextIn(value, text);
      case JArr(items) =>
        forall i | 0 <= i < |items|
          ensures r in References(items[i]) <==> exists s :: TextIn(items[i], s) && r in ReferencesFrom(s, 0)
        {
          ReferencesAreInTexts(items[i], r);
        }
        if s :| TextIn(value, s) && r in ReferencesFrom(s, 0) {
          var i :| 0 <= i < |items| && TextIn(items[i], s);
          assert r in References(items[i]);
        }
        if i :| 0 <= i < |items| && r in References(items[i]) {
          var s :| TextIn(items[i], s) && r in ReferencesFrom(s, 0);
          assert TextIn(value, s);
        }
      case JObj(fields) =>
        forall i | 0 <= i < |fields|
          ensures r in References(fields[i].1) <==> exists s :: TextIn(fields[i].1, s) && r in ReferencesFrom(s, 0)
        {
          ReferencesAreInTexts(fields[i].1, r);
        }
        if s :| TextIn(value, s) && r in ReferencesFrom(s, 0) {
          var i :| 0 <= i < |fields| && TextIn(fields[i].1, s);
          assert r in References(fields[i].1);
        }
        if i :| 0 <= i < |fields| && r in References(fields[i].1) {
          var s :| TextIn(fields[i].1, s) && r in ReferencesFrom(s, 0);
          assert TextIn(value, s);
        }
      case _ => assert forall s :: !TextIn(value, s);
    }
  }

  /** A node depends on exactly the other nodes that some text in its `with` block refers to. */
  lemma DependenciesIff(schema: WorkflowSchema, named: Named, d: string)
    ensures d in NodeDependencies(schema, named.name, named.node)
       <==> && d != named.name && (exists i :: 0 <= i < |schema.nodes| && schema.nodes[i].name == d)
            && named.node.with_.Some? && exists s :: TextIn(named.node.with_.value, s) && d in ReferencesFrom(s, 0)
  {
    hide References, ReferencesFrom, TextIn;
    if named.node.with_.Some? {
      ReferencesAreInTexts(named.node.with_.value, d);
    }
  }
}
