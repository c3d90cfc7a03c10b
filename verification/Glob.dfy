/**
  The guard's glob matcher: two cursors and one remembered `*`.

  `Matches` is the meaning of a pattern (`*` is any run of characters, `?` is any one
  character, every other character is itself).  `Scan` is the matcher's loop as a function
  and `GlobMatches` is the loop.
 */
module Glob {
  import opened Wrappers

  ghost predicate Matches(p: string, t: string)
    decreases |p|, |t|
  {
    if p == "" then t == ""
    else if p[0] == '*' then Matches(p[1..], t) || (t != "" && Matches(p, t[1..]))
    else t != "" && (p[0] == '?' || p[0] == t[0]) && Matches(p[1..], t[1..])
  }

  // ---- What a match is, without recursion over the pattern ----

  function Concat(pieces: seq<string>): string {
    if pieces == [] then "" else pieces[0] + Concat(pieces[1..])
  }

  // What one pattern character may stand for.
  predicate Fills(pc: char, piece: string) {
    pc == '*' || (|piece| == 1 && (pc == '?' || piece[0] == pc))
  }

  // The text cut into one piece for each pattern character.
  predicate IsReading(p: string, t: string, pieces: seq<string>) {
    |pieces| == |p| && Concat(pieces) == t && forall i :: 0 <= i < |p| ==> Fills(p[i], pieces[i])
  }

  lemma ReadingGrows(p: string, t: string, piece: string, pieces: seq<string>)
    requires p != "" && Fills(p[0], piece) && IsReading(p[1..], t, pieces)
    ensures IsReading(p, piece + t, [piece] + pieces)
  {
    var all := [piece] + pieces;
    assert all[1..] == pieces;
    forall i | 0 <= i < |p| ensures Fills(p[i], all[i]) {
      assert i > 0 ==> p[i] == p[1..][i - 1] && all[i] == pieces[i - 1];
    }
  }

  lemma ReadingTail(p: string, t: string, pieces: seq<string>)
    requires p != "" && IsReading(p, t, pieces)
    ensures t == pieces[0] + Concat(pieces[1..]) && IsReading(p[1..], Concat(pieces[1..]), pieces[1..])
  {
  }

  lemma {:induction false} MatchHasReading(p: string, t: string) returns (pieces: seq<string>)
    requires Matches(p, t)
    ensures IsReading(p, t, pieces)
    decreases |p|, |t|
  {
    if p == "" {
      pieces := [];
    } else if p[0] == '*' && !Matches(p[1..], t) {
      var later := MatchHasReading(p, t[1..]);
      ReadingTail(p, t[1..], later);
      var rest := later[1..];
      ReadingGrows(p, Concat(rest), [t[0]] + later[0], rest);
      pieces := [[t[0]] + later[0]] + rest;
      assert [t[0]] + later[0] + Concat(rest) == [t[0]] + t[1..] == t;
    } else {
      var piece := if p[0] == '*' then "" else t[..1];
      var rest := MatchHasReading(p[1..], t[|piece|..]);
      ReadingGrows(p, t[|piece|..], piece, rest);
      pieces := [piece] + rest;
      assert piece + t[|piece|..] == t;
    }
  }

  lemma {:induction false} ReadingMatches(p: string, t: string, pieces: seq<string>)
    requires IsReading(p, t, pieces)
    ensures Matches(p, t)
    decreases |p|, |t|
  {
    if p != "" {
      ReadingTail(p, t, pieces);
      var piece, rest := pieces[0], Concat(pieces[1..]);
      if p[0] == '*' && piece != "" {
        var shorter := piece[1..];
        assert t[1..] == shorter + rest;
        ReadingGrows(p, rest, shorter, pieces[1..]);
        ReadingMatches(p, t[1..], [shorter] + pieces[1..]);
      } else {
        assert t[|piece|..] == rest;
        ReadingMatches(p[1..], rest, pieces[1..]);
        assert p[0] == '*' ==> t == rest;
      }
    }
  }

  /**
    A pattern matches exactly the texts that can be cut into one piece per pattern character: any
    piece for a `*`, any one character for a `?`, that character for every other.
   */
  lemma MatchesIff(p: string, t: string)
    ensures Matches(p, t) <==> exists pieces :: IsReading(p, t, pieces)
  {
    if Matches(p, t) {
      var pieces := MatchHasReading(p, t);
    }
    if pieces :| IsReading(p, t, pieces) {
      ReadingMatches(p, t, pieces);
    }
  }

  // One pattern character that is not used as a wildcard run, against one text character.
  predicate Fits(pc: char, tc: char) {
    pc == '?' || pc == tc
  }

  // The remembered `*`: the pattern position after it and the text position it was tried at.
  datatype Star = Star(afterStar: nat, triedAt: nat)

  predicate TailIsStars(p: string, pi: nat)
    requires pi <= |p|
  {
    forall i :: pi <= i < |p| ==> p[i] == '*'
  }

  predicate StarOk(p: string, pi: nat, ti: nat, star: Option<Star>)
    requires pi <= |p|
  {
    star.Some? ==>
      && 1 <= star.value.afterStar <= pi
      && p[star.value.afterStar - 1] == '*'
      && star.value.triedAt <= ti
  }

  function Scan(p: string, t: string, pi: nat, ti: nat, star: Option<Star>): bool
    requires pi <= |p| && ti <= |t| && StarOk(p, pi, ti, star)
    decreases if star.Some? then |t| - star.value.triedAt else |t| + 1,
              if star.Some? then |p| - star.value.afterStar else 0,
              |t| - ti
  {
    if ti == |t| then TailIsStars(p, pi)
    else if pi < |p| && Fits(p[pi], t[ti]) then Scan(p, t, pi + 1, ti + 1, star)
    else if pi < |p| && p[pi] == '*' then Scan(p, t, pi + 1, ti, Some(Star(pi + 1, ti)))
    else if star.Some? then
      var again := star.value.triedAt + 1;
      Scan(p, t, star.value.afterStar, again, Some(Star(star.value.afterStar, again)))
    else false
  }

  function Glob(p: string, t: string): bool {
    Scan(p, t, 0, 0, None)
  }

  /** The loop computes `Scan`, hence everything proved about `Glob` holds of it. */
  method GlobMatches(p: string, t: string) returns (matched: bool)
    ensures matched == Glob(p, t)
    ensures matched ==> Matches(p, t)
    ensures '*' !in t ==> (matched <==> Matches(p, t))
  {
    var pi: nat, ti: nat := 0, 0;
    var starP: Option<nat>, starT: Option<nat> := None, None;
    ghost var star: Option<Star> := None;
    Soundness(p, t);
    if '*' !in t {
      Completeness(p, t);
    }
    while ti < |t|
      invariant pi <= |p| && ti <= |t|
      invariant starP.Some? == starT.Some? == star.Some?
      invariant star.Some? ==> star.value == Star(starP.value, starT.value)
      invariant StarOk(p, pi, ti, star)
      invariant Glob(p, t) == Scan(p, t, pi, ti, star)
      decreases if star.Some? then |t| - star.value.triedAt else |t| + 1,
                if star.Some? then |p| - star.value.afterStar else 0,
                |t| - ti
    {
      if pi < |p| && (p[pi] == '?' || p[pi] == t[ti]) {
        pi, ti := pi + 1, ti + 1;
      } else if pi < |p| && p[pi] == '*' {
        starP, starT := Some(pi + 1), Some(ti);
        star := Some(Star(pi + 1, ti));
        pi := pi + 1;
      } else if starP.Some? && starT.Some? {
        pi := starP.value;
        ti := starT.value + 1;
        starT := Some(ti);
        star := Some(Star(pi, ti));
      } else {
        return false;
      }
    }
    ghost var from: nat := pi;
    while pi < |p| && p[pi] == '*'
      invariant from <= pi <= |p|
      invariant forall i :: from <= i < pi ==> p[i] == '*'
    {
      pi := pi + 1;
    }
    return pi == |p|;
  }

  // ---- Soundness, for every text ----

  lemma {:induction false} StarAbsorbs(p: string, t: string, k: nat)
    requires p != "" && p[0] == '*' && k <= |t| && Matches(p[1..], t[k..])
    ensures Matches(p, t)
  {
    if k == 0 {
      assert t[0..] == t;
    } else {
      assert t[1..][k - 1..] == t[k..];
      StarAbsorbs(p, t[1..], k - 1);
    }
  }

  lemma {:induction false} StarsMatchEmpty(p: string, pi: nat)
    requires pi <= |p| && TailIsStars(p, pi)
    ensures Matches(p[pi..], "")
    decreases |p| - pi
  {
    if pi < |p| {
      StarsMatchEmpty(p, pi + 1);
      assert p[pi..][1..] == p[pi + 1..];
    }
  }

  // A true scan exhibits a match from where it stands, or from a later place for its star.
  lemma {:induction false} ScanSound(p: string, t: string, pi: nat, ti: nat, star: Option<Star>)
    requires pi <= |p| && ti <= |t| && StarOk(p, pi, ti, star)
    requires Scan(p, t, pi, ti, star)
    ensures || Matches(p[pi..], t[ti..])
            || (star.Some? && exists k :: star.value.triedAt <= k <= |t| && Matches(p[star.value.afterStar..], t[k..]))
    decreases if star.Some? then |t| - star.value.triedAt else |t| + 1,
              if star.Some? then |p| - star.value.afterStar else 0,
              |t| - ti
  {
    if ti == |t| {
      StarsMatchEmpty(p, pi);
      assert t[ti..] == "";
    } else if pi < |p| && Fits(p[pi], t[ti]) {
      ScanSound(p, t, pi + 1, ti + 1, star);
      assert p[pi..][1..] == p[pi + 1..] && t[ti..][1..] == t[ti + 1..];
    } else if pi < |p| && p[pi] == '*' {
      ScanSound(p, t, pi + 1, ti, Some(Star(pi + 1, ti)));
      assert p[pi..][1..] == p[pi + 1..];
      if !Matches(p[pi + 1..], t[ti..]) {
        var k :| ti <= k <= |t| && Matches(p[pi + 1..], t[k..]);
        assert t[ti..][k - ti..] == t[k..];
        StarAbsorbs(p[pi..], t[ti..], k - ti);
      }
    } else {
      var again := star.value.triedAt + 1;
      ScanSound(p, t, star.value.afterStar, again, Some(Star(star.value.afterStar, again)));
    }
  }

  lemma Soundness(p: string, t: string)
    ensures Glob(p, t) ==> Matches(p, t)
  {
    if Glob(p, t) {
      ScanSound(p, t, 0, 0, None);
      assert p[0..] == p && t[0..] == t;
    }
  }

  // ---- Completeness, for texts without a `*` ----

  // The piece of pattern after the remembered star holds no star and fits the text so far.
  ghost predicate Segment(p: string, t: string, pi: nat, ti: nat, s: Star)
    requires pi <= |p| && ti <= |t|
  {
    && s.afterStar <= pi && s.triedAt <= ti
    && pi - s.afterStar == ti - s.triedAt
    && (forall i :: s.afterStar <= i < pi ==> p[i] != '*' && Fits(p[i], t[ti - (pi - i)]))
  }

  // A star-free piece of pattern uses up one text character per pattern character.
  lemma {:induction false} SkipSegment(p: string, t: string, from: nat, to: nat, k: nat)
    requires from <= to <= |p| && k <= |t|
    requires forall i :: from <= i < to ==> p[i] != '*'
    requires Matches(p[from..], t[k..])
    ensures k + (to - from) <= |t| && Matches(p[to..], t[k + (to - from)..])
    decreases |p| - from
  {
    if from < to {
      assert p[from..][1..] == p[from + 1..] && t[k..][1..] == t[k + 1..];
      SkipSegment(p, t, from + 1, to, k + 1);
    }
  }

  lemma {:induction false} StarReaches(p: string, t: string, k: nat) returns (at: nat)
    requires p != "" && p[0] == '*' && k <= |t| && Matches(p, t[k..])
    ensures k <= at <= |t| && Matches(p[1..], t[at..])
    decreases |t| - k
  {
    if Matches(p[1..], t[k..]) {
      at := k;
    } else {
      assert t[k..][1..] == t[k + 1..];
      at := StarReaches(p, t, k + 1);
    }
  }

  lemma {:induction false} EmptyNeedsStars(p: string, pi: nat)
    requires pi <= |p| && Matches(p[pi..], "")
    ensures TailIsStars(p, pi)
    decreases |p| - pi
  {
    if pi < |p| {
      assert p[pi..][1..] == p[pi + 1..];
      EmptyNeedsStars(p, pi + 1);
    }
  }

  // Backtracking only to the last star loses nothing: a match of what follows the star, at
  // its place or later, is always found.
  lemma {:induction false} StarScanComplete(p: string, t: string, pi: nat, ti: nat, s: Star, k: nat)
    requires pi <= |p| && ti <= |t| && StarOk(p, pi, ti, Some(s)) && Segment(p, t, pi, ti, s)
    requires '*' !in t
    requires s.triedAt <= k <= |t| && Matches(p[s.afterStar..], t[k..])
    ensures Scan(p, t, pi, ti, Some(s))
    decreases |t| - s.triedAt, |p| - s.afterStar, |t| - ti
  {
    hide Matches;
    SkipSegment(p, t, s.afterStar, pi, k);
    var beyond := k + (pi - s.afterStar);
    if ti == |t| {
      assert t[beyond..] == "";
      EmptyNeedsStars(p, pi);
    } else if pi < |p| && Fits(p[pi], t[ti]) {
      StarScanComplete(p, t, pi + 1, ti + 1, s, k);
    } else if pi < |p| && p[pi] == '*' {
      var at := StarReaches(p[pi..], t, beyond);
      assert p[pi..][1..] == p[pi + 1..];
      StarScanComplete(p, t, pi + 1, ti, Star(pi + 1, ti), at);
    } else {
      assert k != s.triedAt;
      StarScanComplete(p, t, s.afterStar, s.triedAt + 1, Star(s.afterStar, s.triedAt + 1), k);
    }
  }

  lemma {:induction false} ScanComplete(p: string, t: string, i: nat)
    requires i <= |p| && i <= |t| && '*' !in t
    requires Matches(p[i..], t[i..])
    ensures Scan(p, t, i, i, None)
    decreases |t| - i
  {
    if i == |t| {
      assert t[i..] == "";
      EmptyNeedsStars(p, i);
    } else if p[i] == '*' {
      var at := StarReaches(p[i..], t, i);
      assert p[i..][1..] == p[i + 1..];
      StarScanComplete(p, t, i + 1, i, Star(i + 1, i), at);
    } else {
      assert p[i..][1..] == p[i + 1..] && t[i..][1..] == t[i + 1..];
      ScanComplete(p, t, i + 1);
    }
  }

  lemma Completeness(p: string, t: string)
    requires '*' !in t
    ensures Matches(p, t) ==> Glob(p, t)
  {
    if Matches(p, t) {
      assert p[0..] == p && t[0..] == t;
      ScanComplete(p, t, 0);
    }
  }

  // ---- Exactly when the matcher is exact ----

  function Questions(n: nat): (q: string)
    ensures |q| == n && forall i :: 0 <= i < n ==> q[i] == '?'
  {
    seq(n, _ => '?')
  }

  lemma {:induction false} QuestionsMatch(n: nat, rest: string, t: string)
    requires n <= |t| && Matches(rest, t[n..])
    ensures Matches(Questions(n) + rest, t)
  {
    if n == 0 {
      assert Questions(0) + rest == rest && t[0..] == t;
    } else {
      assert t[1..][n - 1..] == t[n..];
      QuestionsMatch(n - 1, rest, t[1..]);
      assert (Questions(n) + rest)[1..] == Questions(n - 1) + rest;
    }
  }

  // Without a remembered star a pattern that fits the text character by character, and is
  // one `?` too long, ends the scan in `false`.
  lemma {:induction false} FitsButTooLong(p: string, t: string, i: nat)
    requires |p| == |t| + 1 && i <= |t| && p[|t|] == '?'
    requires forall j :: 0 <= j < |t| ==> Fits(p[j], t[j])
    ensures !Scan(p, t, i, i, None)
    decreases |t| - i
  {
    if i < |t| {
      FitsButTooLong(p, t, i + 1);
    }
  }

  lemma LiteralStarFails(t: string, at: nat) returns (p: string)
    requires at < |t| && t[at] == '*'
    ensures Matches(p, t) && !Glob(p, t)
  {
    var rest := |t| - at;
    p := Questions(at) + ("*" + Questions(rest));
    assert t[at..][rest..] == "";
    assert Matches("", t[at..][rest..]);
    QuestionsMatch(rest, "", t[at..]);
    assert Questions(rest) + "" == Questions(rest);
    assert ("*" + Questions(rest))[1..] == Questions(rest);
    assert Matches("*" + Questions(rest), t[at..]);
    QuestionsMatch(at, "*" + Questions(rest), t);
    FitsButTooLong(p, t, 0);
  }

  /** A text is matched exactly, whatever the pattern, if and only if it holds no `*`. */
  lemma ExactIffNoStarInText(t: string)
    ensures '*' !in t <==> forall p :: Glob(p, t) <==> Matches(p, t)
  {
    if '*' !in t {
      forall p ensures Glob(p, t) <==> Matches(p, t) {
        Soundness(p, t);
        Completeness(p, t);
      }
    } else {
      var at :| 0 <= at < |t| && t[at] == '*';
      var p := LiteralStarFails(t, at);
    }
  }
}
