/** Host patterns of ssh_config: the two-pointer glob matcher and the Host line. */
module Glob {
  import opened Common


  /** What a pattern means: `*` stands for any run of characters, `?` for any one. */
  predicate Matches(p: string, t: string)
    decreases |p| + |t|
  {
    if p == [] then t == []
    else if p[0] == '*' then Matches(p[1..], t) || (t != [] && Matches(p, t[1..]))
    else t != [] && (p[0] == '?' || p[0] == t[0]) && Matches(p[1..], t[1..])
  }

  function Joined(pieces: seq<string>): string {
    if pieces == [] then [] else pieces[0] + Joined(pieces[1..])
  }

  /** The text falls into one piece per pattern character: any for a star, one character for `?`, itself for any other. */
  ghost predicate FallsInto(p: string, t: string, pieces: seq<string>) {
    && |pieces| == |p| && Joined(pieces) == t
    && (forall i | 0 <= i < |p| :: p[i] == '*' || (|pieces[i]| == 1 && (p[i] == '?' || pieces[i][0] == p[i])))
  }

  lemma FallsIntoCons(p: string, t: string, pieces: seq<string>, first: string, c: char)
    requires FallsInto(p, t, pieces) && (c == '*' || (|first| == 1 && (c == '?' || first[0] == c)))
    ensures FallsInto([c] + p, first + t, [first] + pieces)
  {
    var all := [first] + pieces;
    assert all[1..] == pieces;
    forall i | 0 <= i < |[c] + p| ensures ([c] + p)[i] == '*' || (|all[i]| == 1 && (([c] + p)[i] == '?' || all[i][0] == ([c] + p)[i])) {
      if i > 0 { assert ([c] + p)[i] == p[i - 1] && all[i] == pieces[i - 1]; }
    }
  }

  lemma FallsIntoTail(p: string, t: string, pieces: seq<string>)
    requires p != [] && FallsInto(p, t, pieces)
    ensures FallsInto(p[1..], Joined(pieces[1..]), pieces[1..]) && t == pieces[0] + Joined(pieces[1..])
  {
    forall i | 0 <= i < |p[1..]| ensures p[1..][i] == '*' || (|pieces[1..][i]| == 1 && (p[1..][i] == '?' || pieces[1..][i][0] == p[1..][i])) {
      assert p[1..][i] == p[i + 1] && pieces[1..][i] == pieces[i + 1];
    }
  }

  lemma {:induction false} MatchFallsInto(p: string, t: string) returns (pieces: seq<string>)
    requires Matches(p, t)
    ensures FallsInto(p, t, pieces)
    decreases |p| + |t|
  {
    if p == [] {
      pieces := [];
    } else if p[0] != '*' {
      var rest := MatchFallsInto(p[1..], t[1..]);
      pieces := [[t[0]]] + rest;
      FallsIntoCons(p[1..], t[1..], rest, [t[0]], p[0]);
      assert [p[0]] + p[1..] == p && [t[0]] + t[1..] == t;
    } else if Matches(p[1..], t) {
      var rest := MatchFallsInto(p[1..], t);
      pieces := [[]] + rest;
      FallsIntoCons(p[1..], t, rest, [], p[0]);
      assert [p[0]] + p[1..] == p && [] + t == t;
    } else {
      var longer := MatchFallsInto(p, t[1..]);
      FallsIntoTail(p, t[1..], longer);
      var first := [t[0]] + longer[0];
      pieces := [first] + longer[1..];
      FallsIntoCons(p[1..], Joined(longer[1..]), longer[1..], first, p[0]);
      assert [p[0]] + p[1..] == p && first + Joined(longer[1..]) == [t[0]] + t[1..] == t;
    }
  }

  lemma {:induction false} FallsIntoMatch(p: string, t: string, pieces: seq<string>)
    requires FallsInto(p, t, pieces)
    ensures Matches(p, t)
    decreases |p| + |t|
  {
    if p != [] {
      FallsIntoTail(p, t, pieces);
      var first, rest := pieces[0], Joined(pieces[1..]);
      if p[0] == '*' && first != [] {
        FallsIntoCons(p[1..], rest, pieces[1..], first[1..], '*');
        assert [p[0]] + p[1..] == p && first[1..] + rest == t[1..];
        FallsIntoMatch(p, t[1..], [first[1..]] + pieces[1..]);
      } else {
        assert p[0] == '*' ==> first + rest == rest;
        assert p[0] != '*' ==> t[0] == first[0] && t[1..] == rest;
        FallsIntoMatch(p[1..], rest, pieces[1..]);
      }
    }
  }

  /** What matching means: the text can be cut into pieces that the pattern's characters stand for, in order. */
  lemma MatchesMeans(p: string, t: string)
    ensures Matches(p, t) <==> exists pieces :: FallsInto(p, t, pieces)
  {
    if Matches(p, t) { var pieces := MatchFallsInto(p, t); }
    if exists pieces :: FallsInto(p, t, pieces) {
      var pieces :| FallsInto(p, t, pieces);
      FallsIntoMatch(p, t, pieces);
    }
  }

  /** Some suffix of `t` from position `m` on is matched. */
  ghost predicate SomeSuffix(p: string, t: string, m: nat) {
    exists k: nat :: m <= k <= |t| && Matches(p, t[k..])
  }

  lemma {:induction false} StarMeansSomeSuffix(p: string, t: string, m: nat)
    requires m <= |t| && p != [] && p[0] == '*'
    ensures Matches(p, t[m..]) <==> SomeSuffix(p[1..], t, m)
    decreases |t| - m
  {
    if m < |t| {
      assert t[m..][1..] == t[m + 1..];
      StarMeansSomeSuffix(p, t, m + 1);
      assert SomeSuffix(p[1..], t, m) <==> Matches(p[1..], t[m..]) || SomeSuffix(p[1..], t, m + 1);
    } else {
      assert t[m..] == [];
      assert SomeSuffix(p[1..], t, m) <==> Matches(p[1..], t[m..]);
    }
  }

  predicate Literal(p: char, c: char) { p != '*' && (p == '?' || p == c) }

  /** `seg` has no star and matches `t` at `at` character by character. */
  ghost predicate Fits(seg: string, t: string, at: nat) {
    at + |seg| <= |t| && forall i | 0 <= i < |seg| :: Literal(seg[i], t[at + i])
  }

  ghost predicate StarFree(p: string) { '*' !in p }

  /** A star-free start of a pattern must match character by character. */
  lemma {:induction false} SegmentMatches(seg: string, rest: string, t: string, k: nat)
    requires StarFree(seg) && k <= |t|
    ensures Matches(seg + rest, t[k..]) <==> Fits(seg, t, k) && Matches(rest, t[k + |seg|..])
    decreases |seg|
  {
    if seg == [] {
      assert seg + rest == rest;
    } else if k < |t| {
      assert (seg + rest)[1..] == seg[1..] + rest && t[k..][1..] == t[k + 1..] && t[k..][0] == t[k];
      SegmentMatches(seg[1..], rest, t, k + 1);
      assert k + |seg| == (k + 1) + |seg[1..]|;
      FitsCons(seg, t, k);
    }
  }

  lemma FitsCons(seg: string, t: string, k: nat)
    requires seg != [] && k < |t|
    ensures Fits(seg, t, k) <==> Literal(seg[0], t[k]) && Fits(seg[1..], t, k + 1)
  {
    if Literal(seg[0], t[k]) && Fits(seg[1..], t, k + 1) {
      forall i | 0 <= i < |seg| ensures Literal(seg[i], t[k + i]) {
        if i > 0 { assert seg[i] == seg[1..][i - 1] && t[k + i] == t[k + 1 + (i - 1)]; }
      }
    }
    if Fits(seg, t, k) {
      assert Literal(seg[0], t[k + 0]);
      forall i | 0 <= i < |seg[1..]| ensures Literal(seg[1..][i], t[k + 1 + i]) { assert seg[1..][i] == seg[i + 1]; }
    }
  }

  // ---------------------------------------------------------------- the two-pointer search

  predicate OnlyStars(p: string) { forall i | 0 <= i < |p| :: p[i] == '*' }

  lemma {:induction false} OnlyStarsMatchNothing(p: string)
    ensures Matches(p, []) <==> OnlyStars(p)
  {
    if p != [] {
      OnlyStarsMatchNothing(p[1..]);
      assert OnlyStars(p) <==> p[0] == '*' && OnlyStars(p[1..]) by {
        assert forall i | 1 <= i < |p| :: p[i] == p[1..][i - 1];
      }
    }
  }

  /** Positions in pattern and text, the last star passed, and where its run was last tried to end. */
  datatype Cursor = Cursor(pi: nat, ti: nat, star: Option<nat>, mark: nat)

  predicate InText(p: string, t: string, c: Cursor) {
    c.pi <= |p| && c.mark <= c.ti <= |t| && (c.star.Some? ==> c.star.value < c.pi && p[c.star.value] == '*')
  }

  /** The answer of the search from a cursor: a star is never reconsidered once a later one is reached. */
  predicate Search(p: string, t: string, c: Cursor)
    requires InText(p, t, c)
    decreases |t| - c.mark, |t| - c.ti + |p| - c.pi
  {
    if c.ti == |t| then OnlyStars(p[c.pi..])
    else if c.pi < |p| && (p[c.pi] == '?' || p[c.pi] == t[c.ti]) then Search(p, t, c.(pi := c.pi + 1, ti := c.ti + 1))
    else if c.pi < |p| && p[c.pi] == '*' then Search(p, t, Cursor(c.pi + 1, c.ti, Some(c.pi), c.ti))
    else if c.star.Some? then Search(p, t, Cursor(c.star.value + 1, c.mark + 1, c.star, c.mark + 1))
    else false
  }

  /** What lies between the last star and the cursor is star-free and fits the text at the mark. */
  ghost predicate Tried(p: string, t: string, c: Cursor)
    requires InText(p, t, c) && c.star.Some?
  {
    var seg := p[c.star.value + 1..c.pi];
    StarFree(seg) && Fits(seg, t, c.mark) && c.ti == c.mark + |seg|
  }

  /** What is left to decide at a cursor. */
  ghost predicate Goal(p: string, t: string, c: Cursor)
    requires InText(p, t, c)
  {
    if c.star.None? then Matches(p[c.pi..], t[c.ti..]) else SomeSuffix(p[c.star.value + 1..], t, c.mark)
  }

  /** Past a star, the pattern matches at `k` exactly when the part already tried fits there and the rest matches after it. */
  lemma SplitAtCursor(p: string, t: string, c: Cursor, k: nat)
    requires InText(p, t, c) && c.star.Some? && Tried(p, t, c) && k <= |t|
    ensures var seg := p[c.star.value + 1..c.pi];
            Matches(p[c.star.value + 1..], t[k..]) <==> Fits(seg, t, k) && Matches(p[c.pi..], t[k + |seg|..])
  {
    assert p[c.star.value + 1..] == p[c.star.value + 1..c.pi] + p[c.pi..];
    SegmentMatches(p[c.star.value + 1..c.pi], p[c.pi..], t, k);
  }

  lemma GoalAtEnd(p: string, t: string, c: Cursor)
    requires InText(p, t, c) && c.ti == |t| && (c.star.Some? ==> Tried(p, t, c))
    ensures Goal(p, t, c) <==> OnlyStars(p[c.pi..])
  {
    OnlyStarsMatchNothing(p[c.pi..]);
    assert t[|t|..] == [];
    if c.star.Some? {
      forall k: nat | c.mark <= k <= |t| ensures Matches(p[c.star.value + 1..], t[k..]) ==> k == c.mark && OnlyStars(p[c.pi..]) {
        SplitAtCursor(p, t, c, k);
      }
      SplitAtCursor(p, t, c, c.mark);
    }
  }

  lemma GoalAdvance(p: string, t: string, c: Cursor)
    requires InText(p, t, c) && c.ti < |t| && c.pi < |p| && Literal(p[c.pi], t[c.ti]) && (c.star.Some? ==> Tried(p, t, c))
    ensures var d := c.(pi := c.pi + 1, ti := c.ti + 1);
            (c.star.Some? ==> Tried(p, t, d)) && (Goal(p, t, c) <==> Goal(p, t, d))
  {
    assert p[c.pi..][1..] == p[c.pi + 1..] && t[c.ti..][1..] == t[c.ti + 1..];
    if c.star.Some? {
      assert p[c.star.value + 1..c.pi + 1] == p[c.star.value + 1..c.pi] + [p[c.pi]];
    }
  }

  /** Forgetting the earlier star at a later one loses no match: the leftmost fit leaves the most text. */
  lemma GoalNewStar(p: string, t: string, c: Cursor)
    requires InText(p, t, c) && c.ti < |t| && c.pi < |p| && p[c.pi] == '*' && (c.star.Some? ==> Tried(p, t, c))
    ensures Tried(p, t, Cursor(c.pi + 1, c.ti, Some(c.pi), c.ti))
    ensures Goal(p, t, c) <==> SomeSuffix(p[c.pi + 1..], t, c.ti)
  {
    assert p[c.pi..][1..] == p[c.pi + 1..];
    StarMeansSomeSuffix(p[c.pi..], t, c.ti);
    if c.star.Some? {
      var seg := p[c.star.value + 1..c.pi];
      SplitAtCursor(p, t, c, c.mark);
      forall k: nat | c.mark <= k <= |t| && Matches(p[c.star.value + 1..], t[k..]) ensures SomeSuffix(p[c.pi + 1..], t, c.ti) {
        SplitAtCursor(p, t, c, k);
        StarMeansSomeSuffix(p[c.pi..], t, k + |seg|);
      }
    }
  }

  lemma NextSuffix(p: string, t: string, m: nat)
    requires m < |t| && !Matches(p, t[m..])
    ensures SomeSuffix(p, t, m) <==> SomeSuffix(p, t, m + 1)
  {
  }

  lemma GoalBacktrack(p: string, t: string, c: Cursor)
    requires InText(p, t, c) && c.ti < |t| && (c.pi < |p| ==> p[c.pi] != '*' && !Literal(p[c.pi], t[c.ti]))
    requires c.star.Some? ==> Tried(p, t, c)
    ensures c.star.None? ==> !Goal(p, t, c)
    ensures c.star.Some? ==> (Goal(p, t, c) <==> SomeSuffix(p[c.star.value + 1..], t, c.mark + 1))
  {
    assert !Matches(p[c.pi..], t[c.ti..]);
    if c.star.Some? {
      SplitAtCursor(p, t, c, c.mark);
      NextSuffix(p[c.star.value + 1..], t, c.mark);
    }
  }

  lemma {:induction false} SearchDecidesGoal(p: string, t: string, c: Cursor)
    requires StarFree(t) && InText(p, t, c) && (c.star.Some? ==> Tried(p, t, c))
    ensures Search(p, t, c) <==> Goal(p, t, c)
    decreases |t| - c.mark, |t| - c.ti + |p| - c.pi
  {
    if c.ti == |t| {
      GoalAtEnd(p, t, c);
    } else if c.pi < |p| && (p[c.pi] == '?' || p[c.pi] == t[c.ti]) {
      GoalAdvance(p, t, c);
      SearchDecidesGoal(p, t, c.(pi := c.pi + 1, ti := c.ti + 1));
    } else if c.pi < |p| && p[c.pi] == '*' {
      GoalNewStar(p, t, c);
      SearchDecidesGoal(p, t, Cursor(c.pi + 1, c.ti, Some(c.pi), c.ti));
    } else {
      GoalBacktrack(p, t, c);
      if c.star.Some? { SearchDecidesGoal(p, t, Cursor(c.star.value + 1, c.mark + 1, c.star, c.mark + 1)); }
    }
  }

  const START := Cursor(0, 0, None, 0)

  /** Remembering only the last star is exact: no match is missed and none is invented. */
  lemma GreedyIsExact(p: string, t: string)
    requires StarFree(t)
    ensures Search(p, t, START) <==> Matches(p, t)
  {
    SearchDecidesGoal(p, t, START);
    assert p[0..] == p && t[0..] == t;
  }

  // ---------------------------------------------------------------- aliases with a star

  lemma {:induction false} LiteralRunFails(p: string, t: string, i: nat)
    requires i <= |t| < |p| && p[|t|] != '*'
    requires forall k | i <= k < |t| :: p[k] == '?' || p[k] == t[k]
    ensures !Search(p, t, Cursor(i, i, None, 0))
    decreases |t| - i
  {
    if i < |t| {
      LiteralRunFails(p, t, i + 1);
    } else {
      assert p[i..][0] == p[i];
    }
  }

  lemma {:induction false} QuestionMarksMatch(n: nat, t: string)
    requires |t| == n
    ensures Matches(seq(n, _ => '?'), t)
    decreases n
  {
    var q := seq(n, _ => '?');
    if n > 0 {
      assert q[1..] == seq(n - 1, _ => '?');
      QuestionMarksMatch(n - 1, t[1..]);
    }
  }

  /** A pattern that the meaning accepts and the search rejects: its star is taken for the alias's own. */
  function Confusing(t: string, j: nat): string
    requires j < |t|
  {
    t[..j] + "*" + seq(|t| - j, _ => '?')
  }

  lemma StarThenMarks(t: string, j: nat)
    requires j < |t|
    ensures Matches("*" + seq(|t| - j, _ => '?'), t[j..])
  {
    var marks := seq(|t| - j, _ => '?');
    QuestionMarksMatch(|t| - j, t[j..]);
    assert ("*" + marks)[1..] == marks;
  }

  lemma PrefixFits(t: string, j: nat)
    requires j <= |t| && StarFree(t[..j])
    ensures Fits(t[..j], t, 0)
  {
  }

  lemma ConfusingMatches(t: string, j: nat)
    requires j < |t| && StarFree(t[..j])
    ensures Matches(Confusing(t, j), t)
  {
    var tail := "*" + seq(|t| - j, _ => '?');
    StarThenMarks(t, j);
    PrefixFits(t, j);
    SegmentMatches(t[..j], tail, t, 0);
    assert Confusing(t, j) == t[..j] + tail && t[0..] == t;
  }

  lemma ConfusingDiffers(t: string, j: nat)
    requires j < |t| && t[j] == '*' && StarFree(t[..j])
    ensures Matches(Confusing(t, j), t) && !Search(Confusing(t, j), t, START)
  {
    ConfusingMatches(t, j);
    ConfusingFails(t, j);
  }

  lemma ConfusingAt(t: string, j: nat, k: nat)
    requires j < |t| && k <= |t|
    ensures |Confusing(t, j)| == |t| + 1
    ensures Confusing(t, j)[k] == if k < j then t[k] else if k == j then '*' else '?'
  {
    var head, marks := t[..j] + "*", seq(|t| - j, _ => '?');
    assert Confusing(t, j) == head + marks && |head| == j + 1;
    if k > j {
      assert (head + marks)[k] == marks[k - (j + 1)];
    } else {
      assert (head + marks)[k] == head[k];
    }
  }

  lemma ConfusingFails(t: string, j: nat)
    requires j < |t| && t[j] == '*'
    ensures !Search(Confusing(t, j), t, START)
  {
    ConfusingAt(t, j, |t|);
    forall k | 0 <= k < |t| ensures Confusing(t, j)[k] == '?' || Confusing(t, j)[k] == t[k] {
      ConfusingAt(t, j, k);
    }
    LiteralRunFails(Confusing(t, j), t, 0);
  }

  /** The aliases on which the search is right whatever the pattern are exactly those without a star. */
  lemma ExactIffStarFree(t: string)
    ensures (forall p: string :: Search(p, t, START) <==> Matches(p, t)) <==> StarFree(t)
  {
    if StarFree(t) {
      forall p: string ensures Search(p, t, START) <==> Matches(p, t) { GreedyIsExact(p, t); }
    } else {
      var j := FirstStar(t);
      ConfusingDiffers(t, j);
    }
  }

  lemma {:induction false} FirstStar(t: string) returns (j: nat)
    requires '*' in t
    ensures j < |t| && t[j] == '*' && StarFree(t[..j])
  {
    if t[0] == '*' { return 0; }
    var i := FirstStar(t[1..]);
    j := i + 1;
    assert t[..j] == [t[0]] + t[1..][..i];
  }

  method GlobMatch(p: string, t: string) returns (r: bool)
    ensures r == Search(p, t, START)
    ensures '*' !in t ==> r == Matches(p, t)
  {
    if StarFree(t) { GreedyIsExact(p, t); }
    var pi: nat, ti: nat := 0, 0;
    var star: Option<nat>, mark: nat := None, 0;
    while ti < |t|
      invariant InText(p, t, Cursor(pi, ti, star, mark))
      invariant Search(p, t, START) == Search(p, t, Cursor(pi, ti, star, mark))
      decreases |t| - mark, |t| - ti + |p| - pi
    {
      if pi < |p| && (p[pi] == '?' || p[pi] == t[ti]) {
        pi, ti := pi + 1, ti + 1;
      } else if pi < |p| && p[pi] == '*' {
        star, mark, pi := Some(pi), ti, pi + 1;
      } else if star.Some? {
        pi, mark := star.value + 1, mark + 1;
        ti := mark;
      } else {
        return false;
      }
    }
    ghost var last: nat := pi;
    while pi < |p| && p[pi] == '*'
      invariant last <= pi <= |p| && OnlyStars(p[last..]) == OnlyStars(p[pi..])
    {
      assert p[pi..] == ['*'] + p[pi + 1..];
      pi := pi + 1;
    }
    assert pi < |p| ==> p[pi..][0] == p[pi];
    r := pi == |p|;
  }

  // ---------------------------------------------------------------- the Host line

  predicate Negated(pattern: string) { pattern != [] && pattern[0] == '!' }

  /** The alias is selected: some positive pattern hits it and no negated one does. */
  ghost predicate Selected(patterns: seq<string>, hits: string -> bool) {
    && (exists i | 0 <= i < |patterns| :: !Negated(patterns[i]) && hits(patterns[i]))
    && (forall i | 0 <= i < |patterns| && Negated(patterns[i]) :: !hits(patterns[i][1..]))
  }

  lemma SelectedAgrees(patterns: seq<string>, f: string -> bool, g: string -> bool)
    requires forall p :: f(p) == g(p)
    ensures Selected(patterns, f) <==> Selected(patterns, g)
  {
  }

  /** The tokens of a Host line against an alias, by the search for any alias, by the meaning for star-free ones. */
  method HostPatternsMatch(patterns: seq<string>, alias: string) returns (r: bool)
    ensures r == Selected(patterns, p => Search(p, alias, START))
    ensures '*' !in alias ==> r == Selected(patterns, p => Matches(p, alias))
  {
    ghost var hits := (p: string) => Search(p, alias, START);
    if '*' !in alias {
      forall p: string ensures hits(p) == Matches(p, alias) { GreedyIsExact(p, alias); }
      SelectedAgrees(patterns, hits, p => Matches(p, alias));
    }
    var matched := false;
    for k := 0 to |patterns|
      invariant matched == exists i | 0 <= i < k :: !Negated(patterns[i]) && hits(patterns[i])
      invariant forall i | 0 <= i < k && Negated(patterns[i]) :: !hits(patterns[i][1..])
    {
      if Negated(patterns[k]) {
        var hit := GlobMatch(patterns[k][1..], alias);
        if hit { return false; }
      } else {
        var hit := GlobMatch(patterns[k], alias);
        if hit { matched := true; }
      }
    }
    return matched;
  }
}
