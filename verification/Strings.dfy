/** The string operations the parser, resolver and evaluator lean on, each said by what it finds. */
module Strings {
  import opened Wrappers

  predicate Occurs(s: string, pat: string, i: nat) {
    i + |pat| <= |s| && s[i..i + |pat|] == pat
  }

  // `s[from..].find(pat)`, as a position in `s`.
  function Find(s: string, pat: string, from: nat): (r: Option<nat>)
    requires from <= |s|
    ensures r.Some? ==> from <= r.value && r.value + |pat| <= |s|
    decreases |s| - from
  {
    if Occurs(s, pat, from) then Some(from)
    else if from == |s| then None
    else Find(s, pat, from + 1)
  }

  /** `find` gives the first occurrence, and nothing when there is none. */
  lemma {:induction false} FindIsFirst(s: string, pat: string, from: nat)
    requires from <= |s|
    ensures var r := Find(s, pat, from);
      if r.Some? then Occurs(s, pat, r.value) && forall i :: from <= i < r.value ==> !Occurs(s, pat, i)
      else forall i :: from <= i <= |s| ==> !Occurs(s, pat, i)
    decreases |s| - from
  {
    if !Occurs(s, pat, from) && from < |s| {
      FindIsFirst(s, pat, from + 1);
    }
  }

  // `rfind(pat)` over starting positions below `bound`.
  function RFindBelow(s: string, pat: string, bound: nat): (r: Option<nat>)
    ensures r.Some? ==> r.value < bound && r.value + |pat| <= |s|
    decreases bound
  {
    if bound == 0 then None
    else if Occurs(s, pat, bound - 1) then Some(bound - 1)
    else RFindBelow(s, pat, bound - 1)
  }

  lemma {:induction false} RFindIsLastBelow(s: string, pat: string, bound: nat)
    ensures var r := RFindBelow(s, pat, bound);
      if r.Some? then Occurs(s, pat, r.value) && forall i :: r.value < i < bound ==> !Occurs(s, pat, i)
      else forall i :: 0 <= i < bound ==> !Occurs(s, pat, i)
    decreases bound
  {
    if bound > 0 && !Occurs(s, pat, bound - 1) {
      RFindIsLastBelow(s, pat, bound - 1);
    }
  }

  function RFind(s: string, pat: string): Option<nat> {
    RFindBelow(s, pat, |s| + 1)
  }

  predicate Contains(s: string, pat: string) {
    Find(s, pat, 0).Some?
  }

  predicate EndsWith(s: string, suffix: string) {
    |suffix| <= |s| && s[|s| - |suffix|..] == suffix
  }

  // The characters Rust's `trim` removes (Unicode White_Space).
  predicate IsSpace(c: char) {
    || '\U{0009}' <= c <= '\U{000D}' || c == ' ' || c == '\U{0085}' || c == '\U{00A0}' || c == '\U{1680}'
    || '\U{2000}' <= c <= '\U{200A}' || c == '\U{2028}' || c == '\U{2029}' || c == '\U{202F}'
    || c == '\U{205F}' || c == '\U{3000}'
  }

  function TrimStart(s: string): (t: string)
    ensures |t| <= |s| && (t != "" ==> !IsSpace(t[0]))
    ensures forall c :: c in t ==> c in s
  {
    if s != "" && IsSpace(s[0]) then TrimStart(s[1..]) else s
  }

  function TrimEnd(s: string): (t: string)
    ensures t <= s && (t != "" ==> !IsSpace(t[|t| - 1]))
  {
    if s != "" && IsSpace(s[|s| - 1]) then TrimEnd(s[..|s| - 1]) else s
  }

  function Trim(s: string): (t: string)
    ensures |t| <= |s|
    ensures forall c :: c in t ==> c in s
    ensures t != "" ==> !IsSpace(t[0]) && !IsSpace(t[|t| - 1])
    ensures s != "" && !IsSpace(s[0]) && !IsSpace(s[|s| - 1]) ==> t == s
  {
    TrimEnd(TrimStart(s))
  }

  // The part of `s` before its first `c`, or all of it.
  function UpTo(s: string, c: char): (t: string)
    ensures t <= s && c !in t
    ensures c !in s ==> t == s
    ensures |t| < |s| ==> s[|t|] == c
  {
    if s == "" || s[0] == c then "" else [s[0]] + UpTo(s[1..], c)
  }

  // `split(c)`: the pieces between the separators, at least one.
  function Split(s: string, c: char): (parts: seq<string>)
    ensures parts != [] && parts[0] == UpTo(s, c)
    decreases |s|
  {
    var head := UpTo(s, c);
    if |head| == |s| then [head] else [head] + Split(s[|head| + 1..], c)
  }

  // ---- What splitting and trimming find ----

  function Join(parts: seq<string>, c: char): string {
    if parts == [] then ""
    else if |parts| == 1 then parts[0] else parts[0] + [c] + Join(parts[1..], c)
  }

  predicate NoneHolds(parts: seq<string>, c: char) {
    forall i :: 0 <= i < |parts| ==> c !in parts[i]
  }

  lemma {:induction false} UpToFirst(head: string, c: char, rest: string)
    requires c !in head
    ensures UpTo(head + [c] + rest, c) == head
  {
    if head != "" {
      assert (head + [c] + rest)[1..] == head[1..] + [c] + rest;
      UpToFirst(head[1..], c, rest);
    }
  }

  lemma SplitFirst(head: string, c: char, rest: string)
    requires c !in head
    ensures Split(head + [c] + rest, c) == [head] + Split(rest, c)
  {
    UpToFirst(head, c, rest);
    assert (head + [c] + rest)[|head| + 1..] == rest;
  }

  lemma JoinMore(head: string, parts: seq<string>, c: char)
    requires parts != []
    ensures Join([head] + parts, c) == head + [c] + Join(parts, c)
  {
    assert ([head] + parts)[1..] == parts;
  }

  /** Splitting gives back the parts a text was joined from. */
  lemma {:induction false} SplitJoin(parts: seq<string>, c: char)
    requires parts != [] && NoneHolds(parts, c)
    ensures Split(Join(parts, c), c) == parts
    decreases |parts|
  {
    if |parts| == 1 {
      assert parts == [parts[0]];
    } else {
      var rest := parts[1..];
      assert parts == [parts[0]] + rest;
      assert NoneHolds(rest, c);
      hide Split, UpTo, Join;
      SplitJoin(rest, c);
      JoinMore(parts[0], rest, c);
      SplitFirst(parts[0], c, Join(rest, c));
    }
  }

  /** And every text is joined from its parts. */
  lemma {:induction false} JoinSplit(s: string, c: char)
    ensures NoneHolds(Split(s, c), c) && Join(Split(s, c), c) == s
    decreases |s|
  {
    var head := UpTo(s, c);
    if |head| < |s| {
      var rest := s[|head| + 1..];
      assert s == head + [c] + rest;
      hide Split, UpTo, Join;
      JoinSplit(rest, c);
      SplitFirst(head, c, rest);
      JoinMore(head, Split(rest, c), c);
    } else {
      assert head == s;
    }
  }

  predicate AllSpace(s: string) {
    forall i :: 0 <= i < |s| ==> IsSpace(s[i])
  }

  // No blank at either end.
  predicate Tight(s: string) {
    s != "" ==> !IsSpace(s[0]) && !IsSpace(s[|s| - 1])
  }

  lemma {:induction false} TrimStartDrops(pre: string, rest: string)
    requires AllSpace(pre) && (rest != "" ==> !IsSpace(rest[0]))
    ensures TrimStart(pre + rest) == rest
  {
    if pre == "" {
      assert pre + rest == rest;
    } else {
      assert (pre + rest)[1..] == pre[1..] + rest;
      TrimStartDrops(pre[1..], rest);
    }
  }

  lemma {:induction false} TrimEndDrops(rest: string, post: string)
    requires AllSpace(post) && (rest != "" ==> !IsSpace(rest[|rest| - 1]))
    ensures TrimEnd(rest + post) == rest
  {
    if post == "" {
      assert rest + post == rest;
    } else {
      assert (rest + post)[..|rest + post| - 1] == rest + post[..|post| - 1];
      TrimEndDrops(rest, post[..|post| - 1]);
    }
  }

  /** Trimming takes the blanks around a text, and nothing else. */
  lemma TrimDrops(pre: string, s: string, post: string)
    requires AllSpace(pre) && AllSpace(post) && Tight(s)
    ensures Trim(pre + s + post) == s
  {
    if s == "" {
      assert pre + s + post == (pre + post) + "";
      TrimStartDrops(pre + post, "");
    } else {
      assert pre + s + post == pre + (s + post);
      TrimStartDrops(pre, s + post);
      TrimEndDrops(s, post);
    }
  }

  predicate Holds(s: string, pat: string) {
    exists i :: 0 <= i <= |s| && Occurs(s, pat, i)
  }

  /** `contains` says whether the pattern occurs anywhere. */
  lemma ContainsIff(s: string, pat: string)
    ensures Contains(s, pat) <==> Holds(s, pat)
  {
    FindIsFirst(s, pat, 0);
  }
}
