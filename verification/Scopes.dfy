/**
 * The scope parser: a recursive reader that is steered by pattern searches
 * and by a guess where the current scope might end.
 */
module Scopes {
  import opened Brackets
  import opened Lists

  datatype Kind = Plain | Class(isEnum: bool) | Namespace

  /** One match of the pattern that looks for class-like scopes. */
  datatype ScopeMatch = ScopeMatch(text: string, kind: Kind, name: string, inherit: Option<string>)

  /**
   * The two regular expressions, as functions of the text they search. All
   * that is used of them: a match is part of that text; a scope match ends in
   * an opening brace; an initializer match starts with one.
   */
  datatype Patterns = Patterns(scope: (Kind, string) -> Option<ScopeMatch>, initializer: string -> Option<string>) {
    ghost predicate Sound() {
      && (forall k, s :: scope(k, s).Some? ==>
            var t := scope(k, s).value.text;
            t != [] && t[|t| - 1] == '{' && (exists i: nat :: At(s, t, i)))
      && (forall s :: initializer(s).Some? ==>
            var t := initializer(s).value;
            t != [] && t[0] == '{' && (exists i: nat :: At(s, t, i)))
    }
  }

  predicate At(s: string, t: string, i: nat) {
    i + |t| <= |s| && s[i..i + |t|] == t
  }

  /** Python's `s[i:j]` and `s.find(t, i, j)`: a negative end counts from the right, so -1 leaves out the last character. */
  function Stop(s: string, j: int): (n: nat)
    ensures n <= |s|
  {
    var end := if j < 0 then |s| + j else j;
    if end < 0 then 0 else if end > |s| then |s| else end
  }

  function Slice(s: string, i: nat, j: int): string {
    if i <= Stop(s, j) then s[i..Stop(s, j)] else []
  }

  method Find(s: string, t: string, i: nat, j: nat) returns (n: int)
    requires j <= |s| && t != []
    ensures n >= 0 ==> i <= n && n + |t| <= j && At(s, t, n) && forall k: nat :: i <= k < n ==> !At(s, t, k)
    ensures n < 0 ==> n == -1 && forall k: nat :: i <= k && k + |t| <= j ==> !At(s, t, k)
  {
    var k := i;
    while k + |t| <= j
      invariant i <= k
      invariant forall l: nat :: i <= l < k ==> !At(s, t, l)
    {
      if s[k..k + |t|] == t { return k; }
      k := k + 1;
    }
    return -1;
  }

  method FindChar(s: string, c: char, i: nat, j: nat) returns (n: int)
    requires j <= |s|
    ensures n >= 0 ==> i <= n < j && s[n] == c && forall k :: i <= k < n ==> s[k] != c
    ensures n < 0 ==> n == -1 && forall k :: i <= k < j ==> s[k] != c
  {
    n := i;
    while n < j
      invariant i <= n && forall k :: i <= k < n && k < j ==> s[k] != c
    {
      if s[n] == c { return; }
      n := n + 1;
    }
    return -1;
  }

  /** `n` is the first place of `c` from `i` on, or -1 if there is none. */
  ghost predicate FirstFrom(s: string, c: char, i: nat, n: int) {
    if n == -1 then forall k :: i <= k < |s| ==> s[k] != c
    else i <= n < |s| && s[n] == c && forall k :: i <= k < n ==> s[k] != c
  }

  /** `a` is the first place of `t` from `i` on. */
  ghost predicate FirstAt(s: string, t: string, i: nat, a: nat) {
    i <= a && At(s, t, a) && forall k: nat :: i <= k < a ==> !At(s, t, k)
  }

  /** Which part of `n` characters an end argument leaves to search. */
  ghost function Reach(n: nat, stop: int): (e: nat)
    ensures e <= n
  {
    if 0 <= stop then (if stop < n then stop else n) else if n + stop >= 0 then n + stop else 0
  }

  /** A finished scope: its braces, the spans scanned for fields, and the scopes read inside it. */
  datatype Tree = Tree(kind: Kind, start: nat, end: nat, spans: seq<(nat, nat)>, subs: seq<Tree>)

  /** Where reading resumes after the first `n` inner scopes of a body that starts at `lo`. */
  ghost function Resume(lo: nat, subs: seq<Tree>, n: nat): nat
    requires n <= |subs|
  {
    if n == 0 then lo else subs[n - 1].end + 1
  }

  /** The scopes are the next complete ones behind `lo`, one after the other. */
  ghost predicate Chain(s: string, lo: nat, subs: seq<Tree>)
    decreases subs, 0
  {
    forall i :: 0 <= i < |subs| ==> NoBraces(s, Resume(lo, subs, i), subs[i].start) && Correct(s, subs[i])
  }

  /** The tree is the brace structure of the text between its braces. */
  ghost predicate Correct(s: string, t: Tree)
    decreases t, 1
  {
    && Matches(s, t.start, t.end)
    && Chain(s, t.start + 1, t.subs)
    && NoBraces(s, Resume(t.start + 1, t.subs, |t.subs|), t.end)
    && (!t.kind.Plain? ==> Tiled(t.start + 1, t.end, t.spans, t.subs))
  }

  /** The text before, between and after the inner scopes; an empty last piece may have been left out. */
  ghost predicate Tiled(lo: nat, hi: nat, spans: seq<(nat, nat)>, subs: seq<Tree>) {
    && (|spans| == |subs| + 1 || (|spans| == |subs| && Resume(lo, subs, |subs|) == hi))
    && (forall i :: 0 <= i < |subs| ==> spans[i] == (Resume(lo, subs, i), subs[i].start))
    && (|spans| == |subs| + 1 ==> spans[|subs|] == (Resume(lo, subs, |subs|), hi))
  }

  /** The text before and between the inner scopes read so far. */
  ghost predicate Gaps(lo: nat, spans: seq<(nat, nat)>, subs: seq<Tree>) {
    |spans| == |subs| && forall i :: 0 <= i < |subs| ==> spans[i] == (Resume(lo, subs, i), subs[i].start)
  }

  /**
   * What the guess of a scope's end is worth: it is the first closing brace
   * that is left, or there is none left, or an opening brace comes first and
   * lies before the guess.
   */
  ghost predicate PossibleEnd(s: string, c: nat, e: int)
    requires s != []
  {
    || (c <= e < |s| && s[e] == '}' && forall k :: c <= k < e ==> s[k] != '}')
    || (e == -1 && forall k :: c <= k < |s| ==> s[k] != '}')
    || ((e == -1 || c <= e < |s|) &&
        exists a, p :: c <= a < p < |s| && a < Stop(s, e) && s[a] == '{' && s[p] == '}' && forall k :: c <= k < p ==> s[k] != '}')
  }

  /** A scope that starts at `start` has been read up to `c`: complete inner scopes, and text at its own depth. */
  ghost predicate Progress(s: string, start: nat, kind: Kind, c: nat, spans: seq<(nat, nat)>, subs: seq<Tree>) {
    && start < c <= |s|
    && Chain(s, start + 1, subs) && c == Resume(start + 1, subs, |subs|)
    && AtDepth(s, start, c)
    && (!kind.Plain? ==> Gaps(start + 1, spans, subs))
  }

  ghost predicate AtDepth(s: string, start: nat, c: nat)
    requires start <= c <= |s|
  {
    var base := if start == 0 then 0 else 1;
    Depth(s, start, c) == base && forall k :: start < k <= c ==> Depth(s, start, k) >= base
  }

  lemma ProgressStart(s: string, start: nat, kind: Kind)
    requires start < |s| && s[start] == if start == 0 then '\n' else '{'
    ensures Progress(s, start, kind, start + 1, [], [])
  {
    assert Depth(s, start, start + 1) == Depth(s, start, start) + Weight(s[start]);
  }

  lemma ResumeSnoc(lo: nat, subs: seq<Tree>, t: Tree, n: nat)
    requires n <= |subs|
    ensures Resume(lo, subs + [t], n) == Resume(lo, subs, n)
  {
  }

  lemma ChainSnoc(s: string, lo: nat, subs: seq<Tree>, t: Tree)
    requires Chain(s, lo, subs) && NoBraces(s, Resume(lo, subs, |subs|), t.start) && Correct(s, t)
    ensures Chain(s, lo, subs + [t])
  {
    hide Correct, NoBraces, Matches;
    forall i | 0 <= i < |subs + [t]|
      ensures NoBraces(s, Resume(lo, subs + [t], i), (subs + [t])[i].start) && Correct(s, (subs + [t])[i])
    {
      ResumeSnoc(lo, subs, t, i);
      if i < |subs| {
        assert Correct(s, subs[i]);
      }
    }
  }

  lemma GapsSnoc(lo: nat, spans: seq<(nat, nat)>, subs: seq<Tree>, t: Tree)
    requires Gaps(lo, spans, subs)
    ensures Gaps(lo, spans + [(Resume(lo, subs, |subs|), t.start)], subs + [t])
  {
    forall i | 0 <= i < |subs + [t]|
      ensures (spans + [(Resume(lo, subs, |subs|), t.start)])[i] == (Resume(lo, subs + [t], i), (subs + [t])[i].start)
    {
      ResumeSnoc(lo, subs, t, i);
    }
  }

  lemma AtDepthChild(s: string, start: nat, c: nat, t: Tree)
    requires start < c <= |s| && AtDepth(s, start, c) && NoBraces(s, c, t.start) && Matches(s, t.start, t.end)
    ensures c <= t.start < t.end < |s| && AtDepth(s, start, t.end + 1)
  {
    SkipScope(s, start, c, t.start, t.end, if start == 0 then 0 else 1);
  }

  lemma CorrectMatches(s: string, t: Tree)
    requires Correct(s, t)
    ensures Matches(s, t.start, t.end)
  {
  }

  lemma ProgressChild(s: string, start: nat, kind: Kind, c: nat, spans: seq<(nat, nat)>, subs: seq<Tree>, t: Tree)
    requires Progress(s, start, kind, c, spans, subs)
    requires NoBraces(s, c, t.start) && Correct(s, t)
    ensures Progress(s, start, kind, t.end + 1, if kind.Plain? then spans else spans + [(c, t.start)], subs + [t])
  {
    hide Correct, Chain, AtDepth, Gaps, Matches, NoBraces, Depth;
    ChainSnoc(s, start + 1, subs, t);
    CorrectMatches(s, t);
    AtDepthChild(s, start, c, t);
    if !kind.Plain? {
      GapsSnoc(start + 1, spans, subs, t);
    }
  }

  lemma ProgressClose(s: string, start: nat, kind: Kind, c: nat, spans: seq<(nat, nat)>, subs: seq<Tree>, p: nat, last: bool)
    requires Progress(s, start, kind, c, spans, subs) && start > 0 && s[start] == '{'
    requires NoBraces(s, c, p) && p < |s| && s[p] == '}' && (last || c == p)
    ensures start < p && Correct(s, Tree(kind, start, p, if last && !kind.Plain? then spans + [(c, p)] else spans, subs))
  {
    CloseScope(s, start, c, p);
    hide Chain, Matches, NoBraces, Depth, AtDepth;
  }

  /** With a sound guess of the end, the first opening brace before it is the first brace that is left. */
  lemma FirstOpening(s: string, c: nat, e: int, g: nat)
    requires s != [] && PossibleEnd(s, c, e)
    requires c <= g < Stop(s, e) && s[g] == '{' && forall k :: c <= k < g ==> s[k] != '{'
    ensures NoBraces(s, c, g) && g < |s| - 1
  {
  }

  lemma NoOpening(s: string, c: nat, e: int)
    requires s != [] && PossibleEnd(s, c, e)
    requires forall k :: c <= k < Stop(s, e) ==> s[k] != '{'
    ensures e == -1 ==> forall k :: c <= k < |s| ==> s[k] != '}'
    ensures e >= 0 ==> c <= e < |s| && NoBraces(s, c, e) && s[e] == '}'
    ensures e >= -1
  {
  }

  /** A scope that holds an unclosed scope is unclosed, and so is the text. */
  lemma UnclosedRefutes(s: string, start: nat, kind: Kind, c: nat, spans: seq<(nat, nat)>, subs: seq<Tree>, g: nat)
    requires Progress(s, start, kind, c, spans, subs)
    requires c <= g < |s| && NoBraces(s, c, g) && s[g] == '{' && forall m: nat :: !Matches(s, g, m)
    ensures start > 0 ==> forall m: nat :: !Matches(s, start, m)
    ensures start == 0 ==> !Balanced(s, 0)
  {
    if start > 0 {
      forall m: nat
        ensures !Matches(s, start, m)
      {
        if Matches(s, start, m) {
          InsideScope(s, start, c, g, m);
        }
      }
    } else if Balanced(s, 0) {
      NoBracesDepth(s, c, g);
      DepthAdds(s, 0, c, g);
      DepthAdds(s, 0, g, |s|);
      var m := MatchExists(s, g, |s|);
    }
  }

  lemma ReadingRefutes(s: string, start: nat, kind: Kind, c: nat, spans: seq<(nat, nat)>, subs: seq<Tree>)
    requires Progress(s, start, kind, c, spans, subs) && start > 0
    requires forall k :: c <= k < |s| ==> s[k] != '}'
    ensures forall m: nat :: !Matches(s, start, m)
  {
    NoCloserNoMatch(s, start, c);
  }

  /** What is known when reading stops: nothing is left inside the scope, or the text is all but over. */
  ghost predicate Stopped(s: string, c: nat, last: int) {
    && c <= |s|
    && (last == -2 ==> |s| - 1 <= c)
    && (last == -1 ==> forall k :: c <= k < |s| ==> s[k] != '}')
    && (last == -1 ==> forall k :: c <= k < |s| - 1 ==> s[k] != '{')
    && (last >= 0 ==> c <= last < |s| && NoBraces(s, c, last) && s[last] == '}')
    && last >= -2
  }

  lemma ReadingCloses(s: string, start: nat, kind: Kind, c: nat, gaps: seq<(nat, nat)>, spans: seq<(nat, nat)>,
                      subs: seq<Tree>, p: nat, last: int)
    requires Progress(s, start, kind, c, gaps, subs) && start > 0 && s[start] == '{' && Stopped(s, c, last)
    requires last != -2 ==> c < |s| - 1
    requires spans == if last >= 0 && !kind.Plain? then gaps + [(c, last)] else gaps
    requires c <= p < |s| && s[p] == '}' && forall k :: c <= k < p ==> s[k] != '}'
    ensures start < p && Correct(s, Tree(kind, start, p, spans, subs))
    ensures !kind.Plain? ==> |spans| == |subs| + if c < |s| - 1 then 1 else 0
  {
    if last >= 0 {
      assert p == last;
    }
    ProgressClose(s, start, kind, c, gaps, subs, p, last >= 0);
  }

  lemma RootCloses(s: string, kind: Kind, c: nat, gaps: seq<(nat, nat)>, subs: seq<Tree>, last: int)
    requires Progress(s, 0, kind, c, gaps, subs) && Stopped(s, c, last) && Balanced(s, 0)
    ensures NoBraces(s, c, |s|)
  {
    hide Matches, Chain, Gaps;
    if last >= 0 {
      DepthPast(s, c, last);
    } else if c < |s| {
      DepthPast(s, c, |s| - 1);
    }
  }

  lemma DepthPast(s: string, c: nat, p: nat)
    requires c <= p < |s| && NoBraces(s, c, p) && Depth(s, 0, c) == 0
    ensures Depth(s, 0, p + 1) == Weight(s[p])
  {
    NoBracesDepth(s, c, p);
    DepthAdds(s, 0, c, p);
  }

  /** An opening brace that nothing closes, with no closing brace too many before it, and text behind it. */
  ghost predicate Dangling(s: string, g: nat) {
    && 0 < g < |s| - 1 && s[g] == '{' && (forall m: nat :: !Matches(s, g, m))
    && forall k :: 0 <= k <= g ==> Depth(s, 0, k) >= 0
  }

  /** A brace that nothing closes goes unnoticed behind a closing brace too many. */
  lemma UnnoticedBrace(s: string)
    requires s == "\n}{;"
    ensures s[2] == '{' && (forall m: nat :: !Matches(s, 2, m)) && forall g: nat :: !Dangling(s, g)
  {
    assert Depth(s, 0, 2) == Depth(s, 0, 1) - 1 && Depth(s, 0, 1) == Depth(s, 0, 0);
    assert Depth(s, 2, 4) == Depth(s, 2, 3) && Depth(s, 2, 3) == Depth(s, 2, 2) + 1;
  }

  lemma DanglesBehind(s: string, c: nat, g: nat)
    requires 0 < c <= g < |s| - 1 && AtDepth(s, 0, c) && NoBraces(s, c, g) && s[g] == '{' && forall m: nat :: !Matches(s, g, m)
    ensures Dangling(s, g)
  {
    forall k | 0 <= k <= g
      ensures Depth(s, 0, k) >= 0
    {
      if c < k {
        DepthAdds(s, 0, c, k);
        NoBracesDepth(s, c, k);
      }
    }
  }

  lemma NothingDangles(s: string, c: nat, last: int, g: nat)
    requires 0 < c <= |s| && AtDepth(s, 0, c) && Stopped(s, c, last)
    ensures !Dangling(s, g)
  {
    if Dangling(s, g) {
      if g < c {
        DepthAdds(s, 0, g, c);
        var m := MatchExists(s, g, c);
      } else if last >= 0 {
        DepthPast(s, c, last);
      }
    }
  }

  datatype Error = NoClosingBrace | NamespaceInherits

  datatype Step = Done(stop: int) | Child(tree: Tree) | Failed(error: Error)

  /** The first closing brace, or the first one behind an initializer that the first one lies in. */
  ghost predicate IsGuess(p: Patterns, s: string, c: nat, possible: int)
    requires c <= |s|
  {
    exists first: int :: FirstFrom(s, '}', c, first) && GuessFrom(p, s, c, first, possible)
  }

  ghost predicate GuessFrom(p: Patterns, s: string, c: nat, first: int, possible: int)
    requires c <= |s|
  {
    match p.initializer(s[c..])
    case None => possible == first
    case Some(all) => exists a: nat :: FirstAt(s, all, c, a) && GuessBehind(s, a, a + |all|, first, possible)
  }

  ghost predicate GuessBehind(s: string, a: nat, end: nat, first: int, possible: int) {
    if a < first < end then FirstFrom(s, '}', end + 1, possible) else possible == first
  }

  /** What the class pattern finds in the text up to the guessed end. */
  ghost function Searched(p: Patterns, kind: Kind, s: string, c: nat, stop: int): Option<ScopeMatch> {
    var e := Reach(|s|, stop);
    p.scope(kind, if c <= e then s[c..e] else [])
  }

  /** The match of the class pattern ends in the brace at `at`. */
  ghost predicate Typed(p: Patterns, kind: Kind, s: string, c: nat, stop: int, at: int) {
    && !kind.Plain? && Searched(p, kind, s, c, stop).Some?
    && var text := Searched(p, kind, s, c, stop).value.text;
       c <= at + 1 - |text| && At(s, text, at + 1 - |text|)
  }

  /** What opens at the brace: what the pattern says if its match ends there, an unnamed scope otherwise. */
  ghost function KindAt(p: Patterns, kind: Kind, s: string, c: nat, stop: int, at: int): Kind {
    if Typed(p, kind, s, c, stop, at) then Searched(p, kind, s, c, stop).value.kind else Plain
  }

  /** That is a namespace with a base. */
  ghost predicate BaseAt(p: Patterns, kind: Kind, s: string, c: nat, stop: int, at: int) {
    && Typed(p, kind, s, c, stop, at)
    && Searched(p, kind, s, c, stop).value.kind.Namespace? && Searched(p, kind, s, c, stop).value.inherit.Some?
  }

  /** The class pattern finds a namespace with a base in some part of the text. */
  ghost predicate NamespaceWithBase(p: Patterns, s: string) {
    exists k: Kind, i: nat, j: nat :: i <= j <= |s| && BaseIn(p, k, s, i, j)
  }

  ghost predicate BaseIn(p: Patterns, k: Kind, s: string, i: nat, j: nat)
    requires i <= j <= |s|
  {
    var found := p.scope(k, s[i..j]);
    found.Some? && found.value.kind.Namespace? && found.value.inherit.Some?
  }

  lemma BaseFound(p: Patterns, kind: Kind, s: string, c: nat, stop: int, at: int)
    requires BaseAt(p, kind, s, c, stop, at)
    ensures NamespaceWithBase(p, s)
  {
    var e := Reach(|s|, stop);
    if c <= e {
      assert BaseIn(p, kind, s, c, e);
    } else {
      assert s[0..0] == [];
      assert BaseIn(p, kind, s, 0, 0);
    }
  }

  lemma SlicedTo(s: string, i: nat, stop: int)
    ensures var e := Reach(|s|, stop); Stop(s, stop) == e && Slice(s, i, stop) == if i <= e then s[i..e] else []
  {
  }

  lemma InitializerFound(p: Patterns, s: string, c: nat)
    requires p.Sound() && c <= |s| && p.initializer(s[c..]).Some?
    ensures var t := p.initializer(s[c..]).value;
            t != [] && t[0] == '{' && exists i: nat :: c <= i && i + |t| <= |s| && At(s, t, i)
  {
    var t := p.initializer(s[c..]).value;
    var i: nat :| At(s[c..], t, i);
    assert At(s, t, c + i);
  }

  lemma FirstIsPossible(s: string, c: nat, first: int)
    requires s != [] && FirstFrom(s, '}', c, first)
    ensures PossibleEnd(s, c, first)
  {
  }

  lemma SkippedInitializer(s: string, t: string, c: nat, a: nat, first: int, possible: int)
    requires t != [] && t[0] == '{' && c <= a < first && At(s, t, a) && FirstFrom(s, '}', c, first)
    requires FirstFrom(s, '}', a + |t| + 1, possible) && first < a + |t|
    ensures PossibleEnd(s, c, possible)
  {
    assert s[a] == s[a..a + |t|][0];
    assert a < Stop(s, possible);
  }

  lemma MatchEnds(patterns: Patterns, kind: Kind, text: string)
    requires patterns.Sound() && patterns.scope(kind, text).Some?
    ensures var t := patterns.scope(kind, text).value.text; t != [] && t[|t| - 1] == '{'
  {
  }

  lemma EndsInBrace(s: string, t: string, n: nat)
    requires t != [] && t[|t| - 1] == '{' && |t| <= n + 1 && At(s, t, n + 1 - |t|)
    ensures n < |s| && s[n] == '{'
  {
    assert s[n] == s[n + 1 - |t|..n + 1][|t| - 1];
  }

  class Scope {
    const content: string
    const patterns: Patterns
    const kind: Kind
    const start: nat
    var current: nat
    var end: int
    var spans: seq<(nat, nat)>
    var subs: seq<Tree>

    constructor (kind: Kind, start: nat, content: string, patterns: Patterns)
      ensures this.kind == kind && this.start == start && this.content == content && this.patterns == patterns
      ensures current == start + 1 && end == (if start == 0 then |content| - 1 else -1) && spans == [] && subs == []
    {
      this.kind, this.start, this.content, this.patterns := kind, start, content, patterns;
      current, end, spans, subs := start + 1, if start == 0 then |content| - 1 else -1, [], [];
    }

    /** The file scope starts at the line break put in front of the text, every other scope at its brace. */
    ghost predicate Opened() {
      && patterns.Sound() && start < |content|
      && content[start] == (if start == 0 then '\n' else '{')
    }

    ghost predicate Reading()
      reads this
    {
      Opened() && Progress(content, start, kind, current, spans, subs)
    }

    method FindPossibleEnd() returns (possible: int)
      requires Opened() && start < current <= |content|
      ensures PossibleEnd(content, current, possible) && IsGuess(patterns, content, current, possible)
    {
      hide Patterns.Sound, At, PossibleEnd;
      possible := FindChar(content, '}', current, |content|);
      ghost var first := possible;
      FirstIsPossible(content, current, first);
      assert FirstFrom(content, '}', current, first);
      var skip := patterns.initializer(content[current..]);
      if skip.Some? {
        var all := skip.value;
        InitializerFound(patterns, content, current);
        var allStart := Find(content, all, current, |content|);
        var allEnd := allStart + |all|;
        assert FirstAt(content, all, current, allStart);
        if allStart < possible < allEnd {
          possible := FindChar(content, '}', allEnd + 1, |content|);
          SkippedInitializer(content, all, current, allStart, first, possible);
        }
      }
    }

    method FindScopeStart(t: string, stop: int) returns (n: int)
      requires content != [] && t != []
      ensures n == -1 ==> forall k: nat :: current <= k && k + |t| <= Reach(|content|, stop) ==> !At(content, t, k)
      ensures n != -1 ==> current <= n + 1 - |t| && n < Reach(|content|, stop) && At(content, t, n + 1 - |t|)
      ensures n != -1 ==> forall k: nat :: current <= k < n + 1 - |t| ==> !At(content, t, k)
    {
      var loc := Find(content, t, current, Stop(content, stop));
      return if loc == -1 then -1 else loc + |t| - 1;
    }

    /** Where the next scope opens, if one opens before the guessed end, and what it is. */
    method ChooseScope(stop: int) returns (at: int, childKind: Kind, fail: bool)
      requires Opened() && start < current <= |content|
      ensures at == -1 ==> forall k :: current <= k < Reach(|content|, stop) ==> content[k] != '{'
      ensures at != -1 ==> current <= at < Reach(|content|, stop) && content[at] == '{' && forall k :: current <= k < at ==> content[k] != '{'
      ensures at != -1 ==> childKind == KindAt(patterns, kind, content, current, stop, at)
      ensures fail <==> at != -1 && BaseAt(patterns, kind, content, current, stop, at)
    {
      SlicedTo(content, current, stop);
      hide Patterns.Sound, At, Slice, Stop, Reach;
      at, childKind, fail := -1, Plain, false;
      var opening := FindChar(content, '{', current, Stop(content, stop));
      if !kind.Plain? {
        var found := patterns.scope(kind, Slice(content, current, stop));
        if found.Some? {
          MatchEnds(patterns, kind, Slice(content, current, stop));
          var typed := FindScopeStart(found.value.text, stop);
          if typed != -1 {
            EndsInBrace(content, found.value.text, typed);
          }
          if typed != -1 && (opening == -1 || typed <= opening) {
            return typed, found.value.kind, found.value.kind.Namespace? && found.value.inherit.Some?;
          }
        }
      }
      at := opening;
    }

    /** The next scope inside this one, read to its end, or none. */
    method NextScope() returns (r: Step)
      requires Reading()
      modifies this
      ensures end == old(end)
      ensures r.Child? ==> Reading() && current > old(current) && subs == old(subs) + [r.tree]
      ensures r.Child? ==>
                exists stop: int :: IsGuess(patterns, content, old(current), stop) &&
                                    r.tree.kind == KindAt(patterns, kind, content, old(current), stop, r.tree.start)
      ensures r == Failed(NamespaceInherits) ==> NamespaceWithBase(patterns, content)
      ensures !r.Child? ==> current == old(current) && subs == old(subs)
      ensures r.Done? ==> NothingLeft(r.stop) && current <= |content| && IsGuess(patterns, content, current, r.stop)
      ensures r.Done? ==> spans == if r.stop >= 0 && !kind.Plain? then old(spans) + [(current, r.stop)] else old(spans)
      ensures r == Failed(NoClosingBrace) ==> exists g :: Unclosed(g)
      decreases |content| - start, 0
    {
      hide Correct, Chain, Gaps, AtDepth, Matches, NoBraces, PossibleEnd, Patterns.Sound, BaseAt, KindAt, IsGuess, Stop, NamespaceWithBase;
      var stop := FindPossibleEnd();
      var at, childKind, fail := ChooseScope(stop);
      SlicedTo(content, current, stop);
      if fail {
        BaseFound(patterns, kind, content, current, stop, at);
        return Failed(NamespaceInherits);
      }
      if at == -1 {
        NoOpening(content, current, stop);
        if !kind.Plain? && stop >= 0 {
          spans := spans + [(current, stop)];
        }
        return Done(stop);
      }
      FirstOpening(content, current, stop, at);
      var child := new Scope(childKind, at, content, patterns);
      if !kind.Plain? {
        spans := spans + [(current, at)];
      }
      var e := child.Read();
      if e.Some? {
        assert e.value.NoClosingBrace? ==> Unclosed(at);
        return Failed(e.value);
      }
      var tree := Tree(childKind, at, child.end, child.spans, child.subs);
      ProgressChild(content, start, kind, current, old(spans), subs, tree);
      current := child.end + 1;
      subs := subs + [tree];
      return Child(tree);
    }

    /** No scope is left to read: the closing brace comes next, or there is none. */
    ghost predicate NothingLeft(stop: int)
      reads this
    {
      stop >= -1 && Stopped(content, current, stop)
    }

    /** The next brace opens a scope that is never closed. */
    ghost predicate Unclosed(g: nat)
      reads this
    {
      && current <= g < |content| - 1 && NoBraces(content, current, g) && content[g] == '{'
      && forall m: nat :: !Matches(content, g, m)
    }

    method Read() returns (e: Option<Error>)
      requires Opened() && current == start + 1 && subs == [] && spans == []
      requires end == if start == 0 then |content| - 1 else -1
      modifies this
      ensures start > 0 && e.None? ==> start < end && Correct(content, Tree(kind, start, end, spans, subs))
      ensures start > 0 && e == Some(NoClosingBrace) ==> forall m: nat :: !Matches(content, start, m)
      ensures start == 0 && e.None? ==> end == |content| - 1 && Chain(content, 1, subs) && current == Resume(1, subs, |subs|) <= |content|
      ensures start == 0 && Balanced(content, 0) && e.None? ==> NoBraces(content, current, |content|)
      ensures start == 0 && Balanced(content, 0) ==> e != Some(NoClosingBrace)
      ensures start == 0 && e == Some(NoClosingBrace) ==> exists g: nat :: Dangling(content, g)
      ensures start == 0 && e.None? ==> forall g: nat :: !Dangling(content, g)
      ensures start > 0 && e.None? && !kind.Plain? ==> |spans| == |subs| + if current < |content| - 1 then 1 else 0
      ensures e == Some(NamespaceInherits) ==> NamespaceWithBase(patterns, content)
      ensures !NamespaceWithBase(patterns, content) && start == 0 && Balanced(content, 0) ==> e.None?
      ensures !NamespaceWithBase(patterns, content) && start > 0 && (exists m: nat :: Matches(content, start, m)) ==> e.None?
      decreases |content| - start, 1
    {
      hide Correct, Chain, Gaps, AtDepth, Matches, NoBraces, Patterns.Sound, Balanced, NamespaceWithBase, IsGuess, KindAt, Dangling;
      ProgressStart(content, start, kind);
      var last := -2;
      ghost var gaps := spans;
      while current < |content| - 1
        invariant Reading() && end == (if start == 0 then |content| - 1 else -1) && last == -2 && spans == gaps
      {
        var step := NextScope();
        match step {
          case Failed(error) =>
            if error.NoClosingBrace? {
              ghost var g :| Unclosed(g);
              UnclosedRefutes(content, start, kind, current, gaps, subs, g);
              if start == 0 {
                DanglesBehind(content, current, g);
              }
            }
            return Some(error);
          case Done(stop) =>
            last := stop;
            break;
          case Child(_) =>
            gaps := spans;
        }
      }
      assert last == -2 <==> |content| - 1 <= current;
      e := None;
      if end == -1 {
        end := FindChar(content, '}', current, |content|);
        if end == -1 {
          ReadingRefutes(content, start, kind, current, gaps, subs);
          return Some(NoClosingBrace);
        }
        ReadingCloses(content, start, kind, current, gaps, spans, subs, end, last);
      } else {
        if Balanced(content, 0) {
          RootCloses(content, kind, current, gaps, subs, last);
        }
        forall g: nat
          ensures !Dangling(content, g)
        {
          NothingDangles(content, current, last, g);
        }
      }
    }
  }
}
