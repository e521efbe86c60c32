/**
  Shell wildcard matching (`glob_match` in src/shell.rs).

  `Matches` is the declarative meaning of `*` and `?`.  `GlobMatch` is the source's loop, which
  backtracks to the last star only.  It is sound for all inputs; it is right for every pattern
  exactly on the texts without `*`, and right on every text exactly for the patterns without `*`,
  because a star facing a `*` in the text is taken as an ordinary character.
*/
module Glob {
  import opened Wrappers

  // ---------- Declarative meaning ----------

  predicate Matches(p: string, t: string)
    decreases |p|
  {
    if p == [] then t == []
    else if p[0] == '*' then exists k :: 0 <= k <= |t| && Matches(p[1..], t[k..])
    else t != [] && (p[0] == '?' || p[0] == t[0]) && Matches(p[1..], t[1..])
  }

  /** The pattern from `i` on matches the text from `j` on. */
  predicate At(p: string, t: string, i: nat, j: nat) {
    i <= |p| && j <= |t| && Matches(p[i..], t[j..])
  }

  /** The pattern after the star at `i` matches the text from `k` on. */
  predicate AfterStar(p: string, t: string, i: nat, k: nat) {
    At(p, t, i + 1, k)
  }

  lemma AtStar(p: string, t: string, i: nat, j: nat)
    requires i < |p| && j <= |t| && p[i] == '*'
    ensures At(p, t, i, j) <==> exists k :: j <= k <= |t| && AfterStar(p, t, i, k)
  {
    assert p[i..][1..] == p[i + 1..];
    if At(p, t, i, j) {
      var k :| 0 <= k <= |t[j..]| && Matches(p[i..][1..], t[j..][k..]);
      assert t[j..][k..] == t[j + k..];
      assert AfterStar(p, t, i, j + k);
    }
    if exists k :: j <= k <= |t| && AfterStar(p, t, i, k) {
      var k :| j <= k <= |t| && AfterStar(p, t, i, k);
      assert t[j..][k - j..] == t[k..];
    }
  }

  lemma AtChar(p: string, t: string, i: nat, j: nat)
    requires i < |p| && j <= |t| && p[i] != '*'
    ensures At(p, t, i, j) <==> j < |t| && (p[i] == '?' || p[i] == t[j]) && At(p, t, i + 1, j + 1)
  {
    assert p[i..][1..] == p[i + 1..];
    if j < |t| {
      assert t[j..][1..] == t[j + 1..];
    }
  }

  // ---------- The matching loop, as a function of its variables ----------

  /** `star` and `starText` are the source's `star_pi` (absent before the first star) and `star_ti`. */
  datatype State = State(pi: nat, ti: nat, star: Option<nat>, starText: nat)

  predicate ValidState(p: string, t: string, s: State) {
    && s.pi <= |p| && s.ti <= |t|
    && (s.star.Some? ==> s.star.value < s.pi && s.starText <= s.ti)
  }

  function StarRank(p: string, s: State): nat
    requires s.star.Some? ==> s.star.value < |p|
  {
    if s.star.None? then |p| + 1 else |p| - s.star.value
  }

  predicate AcceptsChar(p: string, t: string, s: State)
    requires ValidState(p, t, s) && s.ti < |t|
  {
    s.pi < |p| && (p[s.pi] == '?' || p[s.pi] == t[s.ti])
  }

  /** One turn of the loop, or nothing when it gives up. */
  function Step(p: string, t: string, s: State): (r: Option<State>)
    requires ValidState(p, t, s) && s.ti < |t|
    ensures r.Some? ==> ValidState(p, t, r.value)
  {
    if AcceptsChar(p, t, s) then Some(s.(pi := s.pi + 1, ti := s.ti + 1))
    else if s.pi < |p| && p[s.pi] == '*' then Some(State(s.pi + 1, s.ti, Some(s.pi), s.ti))
    else if s.star.Some? then Some(State(s.star.value + 1, s.starText + 1, s.star, s.starText + 1))
    else None
  }

  predicate AllStars(p: string, i: nat)
    requires i <= |p|
    decreases |p| - i
  {
    i == |p| || (p[i] == '*' && AllStars(p, i + 1))
  }

  predicate Run(p: string, t: string, s: State)
    requires ValidState(p, t, s)
    decreases StarRank(p, s), |t| - s.starText, |t| - s.ti
  {
    if s.ti == |t| then AllStars(p, s.pi)
    else match Step(p, t, s)
      case None => false
      case Some(s') => Run(p, t, s')
  }

  const Start := State(0, 0, None, 0)

  /** What `glob_match` returns. */
  predicate Globbed(p: string, t: string) {
    Run(p, t, Start)
  }

  method GlobMatch(pat: string, txt: string) returns (b: bool)
    ensures b == Globbed(pat, txt)
  {
    var pi: nat, ti: nat := 0, 0;
    var star: Option<nat>, starText: nat := None, 0;
    while ti < |txt|
      invariant ValidState(pat, txt, State(pi, ti, star, starText))
      invariant Run(pat, txt, State(pi, ti, star, starText)) == Globbed(pat, txt)
      decreases StarRank(pat, State(pi, ti, star, starText)), |txt| - starText, |txt| - ti
    {
      if pi < |pat| && (pat[pi] == '?' || pat[pi] == txt[ti]) {
        pi, ti := pi + 1, ti + 1;
      } else if pi < |pat| && pat[pi] == '*' {
        star, starText := Some(pi), ti;
        pi := pi + 1;
      } else if star.Some? {
        pi := star.value + 1;
        starText := starText + 1;
        ti := starText;
      } else {
        return false;
      }
    }
    while pi < |pat| && pat[pi] == '*'
      invariant pi <= |pat| && AllStars(pat, pi) == Globbed(pat, txt)
    {
      pi := pi + 1;
    }
    return pi == |pat|;
  }

  // ---------- Correctness ----------

  /** Some continuation of this state leads to a match. */
  predicate Alive(p: string, t: string, s: State) {
    || At(p, t, s.pi, s.ti)
    || (s.star.Some? && exists j :: s.starText < j <= |t| && AfterStar(p, t, s.star.value, j))
  }

  lemma {:induction false} StarsMatchEmpty(p: string, t: string, i: nat)
    requires i <= |p|
    ensures AllStars(p, i) == At(p, t, i, |t|)
    decreases |p| - i
  {
    if i < |p| {
      StarsMatchEmpty(p, t, i + 1);
      if p[i] == '*' {
        AtStar(p, t, i, |t|);
        assert AfterStar(p, t, i, |t|) == At(p, t, i + 1, |t|);
      } else {
        AtChar(p, t, i, |t|);
      }
    }
  }

  lemma StepSound(p: string, t: string, s: State)
    requires ValidState(p, t, s) && s.ti < |t|
    ensures var r := Step(p, t, s); r.Some? && Alive(p, t, r.value) ==> Alive(p, t, s)
  {
    if s.pi < |p| && p[s.pi] == '*' {
      AtStar(p, t, s.pi, s.ti);
      assert AfterStar(p, t, s.pi, s.ti) == At(p, t, s.pi + 1, s.ti);
      assert AfterStar(p, t, s.pi, s.ti + 1) == At(p, t, s.pi + 1, s.ti + 1);
    } else {
      if s.pi < |p| { AtChar(p, t, s.pi, s.ti); }
      if s.star.Some? {
        assert AfterStar(p, t, s.star.value, s.starText + 1) == At(p, t, s.star.value + 1, s.starText + 1);
      }
    }
  }

  lemma {:induction false} RunSound(p: string, t: string, s: State)
    requires ValidState(p, t, s) && Run(p, t, s)
    ensures Alive(p, t, s)
    decreases StarRank(p, s), |t| - s.starText, |t| - s.ti
  {
    if s.ti == |t| {
      StarsMatchEmpty(p, t, s.pi);
    } else {
      RunSound(p, t, Step(p, t, s).value);
      StepSound(p, t, s);
    }
  }

  /** The characters read since the last star were compared one to one, and none was a star. */
  predicate Aligned(p: string, t: string, s: State)
    requires ValidState(p, t, s)
  {
    s.star.Some? ==>
      && s.ti - s.starText == s.pi - s.star.value - 1
      && forall i :: s.star.value < i < s.pi ==> p[i] != '*'
  }

  lemma {:induction false} ReadOn(p: string, t: string, i: nat, j: nat, n: nat)
    requires i + n <= |p| && At(p, t, i, j) && forall a :: i <= a < i + n ==> p[a] != '*'
    ensures j + n <= |t| && At(p, t, i + n, j + n)
    decreases n
  {
    if n > 0 {
      AtChar(p, t, i, j);
      ReadOn(p, t, i + 1, j + 1, n - 1);
    }
  }

  /** A match that starts the last star's remainder later also passes the current position later. */
  lemma Later(p: string, t: string, s: State) returns (j: nat)
    requires ValidState(p, t, s) && Aligned(p, t, s) && Alive(p, t, s) && !At(p, t, s.pi, s.ti)
    ensures s.star.Some? && s.starText < j <= |t| && At(p, t, s.star.value + 1, j)
    ensures s.ti < j + (s.pi - s.star.value - 1) <= |t|
    ensures At(p, t, s.pi, j + (s.pi - s.star.value - 1))
  {
    j :| s.starText < j <= |t| && AfterStar(p, t, s.star.value, j);
    ReadOn(p, t, s.star.value + 1, j, s.pi - s.star.value - 1);
  }

  /** Neither side offers a star that would be taken as an ordinary character. */
  predicate StarFree(p: string, t: string) {
    '*' !in t || '*' !in p
  }

  lemma StepComplete(p: string, t: string, s: State)
    requires ValidState(p, t, s) && s.ti < |t| && Aligned(p, t, s) && StarFree(p, t) && Alive(p, t, s)
    ensures var r := Step(p, t, s); r.Some? && Aligned(p, t, r.value) && Alive(p, t, r.value)
  {
    if AcceptsChar(p, t, s) {
      assert p[s.pi] in p && t[s.ti] in t;
      AtChar(p, t, s.pi, s.ti);
    } else if s.pi < |p| && p[s.pi] == '*' {
      AtStar(p, t, s.pi, s.ti);
      if !At(p, t, s.pi, s.ti) {
        var j := Later(p, t, s);
        AtStar(p, t, s.pi, j + (s.pi - s.star.value - 1));
      }
    } else {
      if s.pi < |p| {
        AtChar(p, t, s.pi, s.ti);
      }
      var j := Later(p, t, s);
    }
  }

  lemma {:induction false} RunComplete(p: string, t: string, s: State)
    requires ValidState(p, t, s) && Aligned(p, t, s) && StarFree(p, t) && Alive(p, t, s)
    ensures Run(p, t, s)
    decreases StarRank(p, s), |t| - s.starText, |t| - s.ti
  {
    if s.ti == |t| {
      if !At(p, t, s.pi, s.ti) {
        var j := Later(p, t, s);
      }
      StarsMatchEmpty(p, t, s.pi);
    } else {
      StepComplete(p, t, s);
      RunComplete(p, t, Step(p, t, s).value);
    }
  }

  /** Whatever the loop accepts, the pattern matches. */
  lemma Sound(p: string, t: string)
    requires Globbed(p, t)
    ensures Matches(p, t)
  {
    RunSound(p, t, Start);
    assert p[0..] == p && t[0..] == t;
  }

  lemma Complete(p: string, t: string)
    requires StarFree(p, t)
    ensures Globbed(p, t) == Matches(p, t)
  {
    assert p[0..] == p && t[0..] == t;
    if Matches(p, t) {
      assert At(p, t, 0, 0);
      RunComplete(p, t, Start);
    } else if Globbed(p, t) {
      Sound(p, t);
    }
  }

  // ---------- Where the loop is wrong ----------

  /** Pattern and text agree character by character from `n` on. */
  predicate Agree(p: string, t: string, i: nat, n: nat, d: int) {
    n <= |p| && forall b :: i <= b < n ==> 0 <= b + d < |t| && (p[b] == '?' || p[b] == t[b + d])
  }

  lemma {:induction false} AgreeMatches(p: string, t: string, i: nat, n: nat, d: int)
    requires i <= n && 0 <= i + d && Agree(p, t, i, n, d) && At(p, t, n, n + d)
    ensures At(p, t, i, i + d)
    decreases n - i
  {
    if i < n {
      AgreeMatches(p, t, i + 1, n, d);
      if p[i] == '*' {
        assert AfterStar(p, t, i, i + 1 + d);
        AtStar(p, t, i, i + d);
      } else {
        AtChar(p, t, i, i + d);
      }
    }
  }

  /** Without a star on record the loop reads agreeing characters in step, stars included. */
  lemma {:induction false} Lockstep(p: string, t: string, i: nat, n: nat)
    requires i <= n <= |t| && Agree(p, t, i, n, 0)
    ensures Run(p, t, State(i, i, None, 0)) == Run(p, t, State(n, n, None, 0))
    decreases n - i
  {
    if i < n {
      assert Step(p, t, State(i, i, None, 0)) == Some(State(i + 1, i + 1, None, 0));
      Lockstep(p, t, i + 1, n);
    }
  }

  lemma {:induction false} TooShort(p: string, t: string, n: nat)
    requires n <= |p| < |t| && '*' !in p[n..]
    ensures !Run(p, t, State(n, n, None, 0))
    decreases |p| - n
  {
    if n < |p| {
      assert p[n] == p[n..][0] && p[n + 1..] == p[n..][1..];
      TooShort(p, t, n + 1);
    }
  }

  function Marks(n: nat): (s: string)
    ensures |s| == n && forall i :: 0 <= i < n ==> s[i] == '?'
  {
    seq(n, i => '?')
  }

  /** For a text with a `*` at `i`, a pattern that matches it and is refused. */
  lemma TextWitness(t: string, i: nat) returns (p: string)
    requires i < |t| && t[i] == '*'
    ensures Matches(p, t) && !Globbed(p, t)
  {
    p := Marks(i) + "*" + Marks(|t| - i);
    assert p[|p|..] == [] && t[|t|..] == [];
    assert At(p, t, |p|, |t|);
    AgreeMatches(p, t, i + 1, |p|, -1);
    assert AfterStar(p, t, i, i);
    AtStar(p, t, i, i);
    AgreeMatches(p, t, 0, i, 0);
    assert p[0..] == p && t[0..] == t;
    Lockstep(p, t, 0, |t|);
  }

  /** Index of the last star. */
  function LastStar(p: string): (s: nat)
    requires '*' in p
    ensures s < |p| && p[s] == '*' && '*' !in p[s + 1..]
  {
    if p[|p| - 1] == '*' then |p| - 1
    else
      assert p == p[..|p| - 1] + [p[|p| - 1]];
      var s := LastStar(p[..|p| - 1]);
      assert p[s + 1..] == p[..|p| - 1][s + 1..] + [p[|p| - 1]];
      s
  }

  lemma StarTakesTwo(p: string, t: string, s: nat)
    requires s < |p| && p[s] == '*' && |t| == |p| + 1
    requires Agree(p, t, 0, s, 0) && Agree(p, t, s + 1, |p|, 1)
    ensures Matches(p, t)
  {
    assert p[|p|..] == [] && t[|t|..] == [];
    assert At(p, t, |p|, |t|);
    AgreeMatches(p, t, s + 1, |p|, 1);
    assert AfterStar(p, t, s, s + 2);
    AtStar(p, t, s, s);
    AgreeMatches(p, t, 0, s, 0);
    assert p[0..] == p && t[0..] == t;
  }

  /** For a pattern with a star, a text that it matches and that is refused. */
  lemma PatternWitness(p: string) returns (t: string)
    requires '*' in p
    ensures Matches(p, t) && !Globbed(p, t)
  {
    var s := LastStar(p);
    t := p[..s + 1] + "*" + p[s + 1..];
    assert Agree(p, t, 0, s + 1, 0) && Agree(p, t, s + 1, |p|, 1);
    StarTakesTwo(p, t, s);
    Lockstep(p, t, 0, s + 1);
    TooShort(p, t, s + 1);
  }

  /** A text is matched correctly by every pattern exactly when it holds no `*`. */
  lemma TextExact(t: string)
    ensures (forall p :: Globbed(p, t) == Matches(p, t)) <==> '*' !in t
  {
    if '*' in t {
      var i :| 0 <= i < |t| && t[i] == '*';
      var p := TextWitness(t, i);
      assert Globbed(p, t) != Matches(p, t);
    } else {
      forall p ensures Globbed(p, t) == Matches(p, t) { Complete(p, t); }
    }
  }

  /** A pattern is matched correctly against every text exactly when it holds no star. */
  lemma PatternExact(p: string)
    ensures (forall t :: Globbed(p, t) == Matches(p, t)) <==> '*' !in p
  {
    if '*' in p {
      var t := PatternWitness(p);
      assert Globbed(p, t) != Matches(p, t);
    } else {
      forall t ensures Globbed(p, t) == Matches(p, t) { Complete(p, t); }
    }
  }
}
