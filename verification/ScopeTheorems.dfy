/** What a correct scope tree says about the text it was read from. */
module ScopeTheorems {
  import opened Brackets
  import opened Scopes

  /** The inner scopes of a body `[lo, hi)`, read completely. */
  ghost predicate Body(s: string, lo: nat, hi: nat, subs: seq<Tree>) {
    Chain(s, lo, subs) && NoBraces(s, Resume(lo, subs, |subs|), hi)
  }

  /** How many scopes in a list of trees, at any depth, open at position `k`. */
  ghost function Openings(subs: seq<Tree>, k: nat): nat
    decreases subs, 0
  {
    if subs == [] then 0 else
      var t := subs[|subs| - 1];
      Openings(subs[..|subs| - 1], k) + (if t.start == k then 1 else 0) + Openings(t.subs, k)
  }

  /** The braces of all scopes in a list of trees, at any depth. */
  ghost function AllScopes(subs: seq<Tree>): set<(nat, nat)>
    decreases subs, 0
  {
    if subs == [] then {} else
      var t := subs[|subs| - 1];
      AllScopes(subs[..|subs| - 1]) + {(t.start, t.end)} + AllScopes(t.subs)
  }

  lemma ClosingBrace(s: string, t: Tree)
    requires Matches(s, t.start, t.end)
    ensures t.start < t.end < |s| && s[t.start] == '{' && s[t.end] == '}'
  {
    assert Depth(s, t.start, t.end) >= 1;
  }

  lemma CorrectBody(s: string, t: Tree)
    requires Correct(s, t)
    ensures Body(s, t.start + 1, t.end, t.subs) && Matches(s, t.start, t.end)
  {
    hide Chain, Matches, NoBraces;
  }

  lemma ChainFront(s: string, lo: nat, subs: seq<Tree>)
    requires subs != [] && Chain(s, lo, subs)
    ensures var front, t := subs[..|subs| - 1], subs[|subs| - 1];
            Body(s, lo, t.start, front) && Correct(s, t) && Body(s, t.start + 1, t.end, t.subs) && Matches(s, t.start, t.end)
  {
    hide *;
    var front, t := subs[..|subs| - 1], subs[|subs| - 1];
    assert subs == front + [t];
    ChainSplit(s, lo, front, t);
    CorrectBody(s, t);
  }

  lemma ChainSplit(s: string, lo: nat, front: seq<Tree>, t: Tree)
    requires Chain(s, lo, front + [t])
    ensures Body(s, lo, t.start, front) && Correct(s, t)
  {
    hide Correct, Matches, NoBraces;
    var subs := front + [t];
    forall i | 0 <= i < |front|
      ensures NoBraces(s, Resume(lo, front, i), front[i].start) && Correct(s, front[i])
    {
      ResumeSnoc(lo, front, t, i);
      assert Correct(s, subs[i]);
    }
    ResumeSnoc(lo, front, t, |front|);
    assert Correct(s, subs[|front|]);
  }

  lemma {:induction false} BodyOrdered(s: string, lo: nat, hi: nat, subs: seq<Tree>)
    requires Body(s, lo, hi, subs)
    ensures lo <= Resume(lo, subs, |subs|) <= hi <= |s|
    decreases |subs|
  {
    if subs != [] {
      ChainFront(s, lo, subs);
      BodyOrdered(s, lo, subs[|subs| - 1].start, subs[..|subs| - 1]);
    }
  }

  /** Every opening brace of the body opens exactly one scope of the tree, and nothing else opens one. */
  lemma {:induction false} OneScopePerBrace(s: string, lo: nat, hi: nat, subs: seq<Tree>, k: nat)
    requires Body(s, lo, hi, subs)
    ensures Openings(subs, k) == if lo <= k < hi <= |s| && s[k] == '{' then 1 else 0
    decreases subs
  {
    hide Chain, Correct, Matches;
    BodyOrdered(s, lo, hi, subs);
    if subs != [] {
      var front, t := subs[..|subs| - 1], subs[|subs| - 1];
      ChainFront(s, lo, subs);
      ClosingBrace(s, t);
      BodyOrdered(s, lo, t.start, front);
      OneScopePerBrace(s, lo, t.start, front, k);
      OneScopePerBrace(s, t.start + 1, t.end, t.subs, k);
    }
  }

  /** Inner scopes follow one another. */
  lemma {:induction false} ScopesOrdered(s: string, lo: nat, hi: nat, subs: seq<Tree>, i: nat, j: nat)
    requires Body(s, lo, hi, subs) && i < j < |subs|
    ensures lo <= subs[i].start < subs[i].end < subs[j].start < subs[j].end < hi
    decreases |subs|
  {
    hide Chain, Correct, Matches, NoBraces;
    var n := |subs| - 1;
    BodyOrdered(s, lo, hi, subs);
    ChainFront(s, lo, subs);
    ClosingBrace(s, subs[n]);
    BodyOrdered(s, lo, subs[n].start, subs[..n]);
    if j < n {
      ScopesOrdered(s, lo, subs[n].start, subs[..n], i, j);
    } else {
      LastFirst(s, lo, subs[n].start, subs[..n], i);
    }
  }

  lemma {:induction false} LastFirst(s: string, lo: nat, hi: nat, subs: seq<Tree>, i: nat)
    requires Body(s, lo, hi, subs) && i < |subs|
    ensures lo <= subs[i].start < subs[i].end < hi
    decreases |subs|
  {
    hide Chain, Correct, Matches, NoBraces;
    var n := |subs| - 1;
    BodyOrdered(s, lo, hi, subs);
    ChainFront(s, lo, subs);
    ClosingBrace(s, subs[n]);
    BodyOrdered(s, lo, subs[n].start, subs[..n]);
    if i < n {
      LastFirst(s, lo, subs[n].start, subs[..n], i);
    }
  }

  ghost predicate NestedOrDisjoint(a: (nat, nat), b: (nat, nat)) {
    a == b || a.1 < b.0 || b.1 < a.0 || (a.0 < b.0 && b.1 < a.1) || (b.0 < a.0 && a.1 < b.1)
  }

  lemma FirstReturn(s: string, i: nat, m: nat, n: nat)
    requires Matches(s, i, m) && Matches(s, i, n)
    ensures m <= n
  {
  }

  /** Matching braces are nested or disjoint. */
  lemma MatchesNest(s: string, i: nat, m: nat, j: nat, n: nat)
    requires Matches(s, i, m) && Matches(s, j, n) && i <= j
    ensures NestedOrDisjoint((i, m), (j, n))
  {
    if i == j {
      FirstReturn(s, i, m, n);
      FirstReturn(s, i, n, m);
    } else if j <= m {
      DepthAdds(s, i, j, m + 1);
      if n == m {
        OpeningUnique(s, i, j, m);
      }
    }
  }

  /** So are any two scopes of a tree, at whatever depth. */
  lemma ScopesNest(s: string, lo: nat, hi: nat, subs: seq<Tree>, a: (nat, nat), b: (nat, nat))
    requires Body(s, lo, hi, subs) && a in AllScopes(subs) && b in AllScopes(subs)
    ensures NestedOrDisjoint(a, b)
  {
    ScopesAreMatches(s, lo, hi, subs, a);
    ScopesAreMatches(s, lo, hi, subs, b);
    if a.0 <= b.0 {
      MatchesNest(s, a.0, a.1, b.0, b.1);
    } else {
      MatchesNest(s, b.0, b.1, a.0, a.1);
    }
  }

  /** The scopes of a tree, at whatever depth, are exactly the pairs of matching braces in the text it was read from. */
  lemma {:induction false} ScopesAreMatches(s: string, lo: nat, hi: nat, subs: seq<Tree>, a: (nat, nat))
    requires Body(s, lo, hi, subs)
    ensures a in AllScopes(subs) <==> lo <= a.0 < hi && Matches(s, a.0, a.1)
    decreases subs
  {
    hide Chain, Correct, Matches;
    BodyOrdered(s, lo, hi, subs);
    if subs != [] {
      var front, t := subs[..|subs| - 1], subs[|subs| - 1];
      ChainFront(s, lo, subs);
      ClosingBrace(s, t);
      BodyOrdered(s, lo, t.start, front);
      ScopesAreMatches(s, lo, t.start, front, a);
      ScopesAreMatches(s, t.start + 1, t.end, t.subs, a);
    }
    if Matches(s, a.0, a.1) {
      OnlyMatch(s, a, subs);
    }
  }

  lemma OnlyMatch(s: string, a: (nat, nat), subs: seq<Tree>)
    requires Matches(s, a.0, a.1)
    ensures a.0 < |s| && s[a.0] == '{'
    ensures subs != [] && a.0 == subs[|subs| - 1].start && Matches(s, a.0, subs[|subs| - 1].end) ==> a.1 == subs[|subs| - 1].end
  {
  }

  /** The braces of a tree, without what the patterns made of them. */
  datatype Shape = Shape(start: nat, end: nat, inner: seq<Shape>)

  ghost function ShapesOf(subs: seq<Tree>): (shapes: seq<Shape>)
    ensures |shapes| == |subs|
    decreases subs
  {
    if subs == [] then [] else
      var t := subs[|subs| - 1];
      ShapesOf(subs[..|subs| - 1]) + [Shape(t.start, t.end, ShapesOf(t.subs))]
  }

  lemma LastOpening(s: string, lo: nat, hi: nat, subs: seq<Tree>, vs: seq<Tree>)
    requires Body(s, lo, hi, subs) && Body(s, lo, hi, vs)
    ensures subs == [] <==> vs == []
    ensures subs != [] ==> subs[|subs| - 1].end == vs[|vs| - 1].end
  {
    BodyOrdered(s, lo, hi, subs);
    BodyOrdered(s, lo, hi, vs);
    if subs != [] {
      ChainFront(s, lo, subs);
      BodyOrdered(s, lo, subs[|subs| - 1].start, subs[..|subs| - 1]);
      ClosingBrace(s, subs[|subs| - 1]);
    }
    if vs != [] {
      ChainFront(s, lo, vs);
      BodyOrdered(s, lo, vs[|vs| - 1].start, vs[..|vs| - 1]);
      ClosingBrace(s, vs[|vs| - 1]);
    }
  }

  lemma OpeningUnique(s: string, i: nat, j: nat, m: nat)
    requires Matches(s, i, m) && Matches(s, j, m)
    ensures i == j
  {
    if i < j {
      DepthAdds(s, i, j, m + 1);
    } else if j < i {
      DepthAdds(s, j, i, m + 1);
    }
  }

  /** Whatever the patterns return, the same scopes are read. */
  lemma {:induction false} ShapeIsForced(s: string, lo: nat, hi: nat, subs: seq<Tree>, vs: seq<Tree>)
    requires Body(s, lo, hi, subs) && Body(s, lo, hi, vs)
    ensures ShapesOf(subs) == ShapesOf(vs)
    decreases subs
  {
    hide Chain, Correct, Matches, NoBraces;
    LastOpening(s, lo, hi, subs, vs);
    if subs != [] {
      var t, u := subs[|subs| - 1], vs[|vs| - 1];
      ChainFront(s, lo, subs);
      ChainFront(s, lo, vs);
      OpeningUnique(s, t.start, u.start, t.end);
      ShapeIsForced(s, lo, t.start, subs[..|subs| - 1], vs[..|vs| - 1]);
      ShapeIsForced(s, t.start + 1, t.end, t.subs, u.subs);
    }
  }

  /** How many spans, and how many inner scopes, hold position `k`. */
  ghost function SpansAt(spans: seq<(nat, nat)>, k: nat): nat {
    if spans == [] then 0 else
      var last := spans[|spans| - 1];
      SpansAt(spans[..|spans| - 1], k) + if last.0 <= k < last.1 then 1 else 0
  }

  ghost function ScopesAt(subs: seq<Tree>, k: nat): nat {
    if subs == [] then 0 else
      var last := subs[|subs| - 1];
      ScopesAt(subs[..|subs| - 1], k) + if last.start <= k <= last.end then 1 else 0
  }

  lemma GapsFront(lo: nat, spans: seq<(nat, nat)>, subs: seq<Tree>)
    requires Gaps(lo, spans, subs) && subs != []
    ensures var n := |subs| - 1;
            Gaps(lo, spans[..n], subs[..n]) && spans == spans[..n] + [(Resume(lo, subs[..n], n), subs[n].start)]
  {
    var n := |subs| - 1;
    forall i | 0 <= i < n
      ensures spans[..n][i] == (Resume(lo, subs[..n], i), subs[..n][i].start)
    {
      assert spans[i] == (Resume(lo, subs, i), subs[i].start);
    }
    assert spans[n] == (Resume(lo, subs, n), subs[n].start);
  }

  /** Every position up to where reading resumes lies in exactly one span or inner scope. */
  lemma {:induction false} GapsTile(s: string, lo: nat, hi: nat, spans: seq<(nat, nat)>, subs: seq<Tree>, k: nat)
    requires Body(s, lo, hi, subs) && Gaps(lo, spans, subs)
    ensures SpansAt(spans, k) + ScopesAt(subs, k) == if lo <= k < Resume(lo, subs, |subs|) then 1 else 0
    decreases |subs|
  {
    hide Chain, Correct, Matches, NoBraces, Gaps;
    if subs == [] {
      NoGaps(lo, spans, subs);
    } else {
      var n := |subs| - 1;
      ChainFront(s, lo, subs);
      ClosingBrace(s, subs[n]);
      BodyOrdered(s, lo, subs[n].start, subs[..n]);
      GapsFront(lo, spans, subs);
      GapsTile(s, lo, subs[n].start, spans[..n], subs[..n], k);
      LastSpan(spans[..n], (Resume(lo, subs[..n], n), subs[n].start), k);
    }
  }

  lemma NoGaps(lo: nat, spans: seq<(nat, nat)>, subs: seq<Tree>)
    requires Gaps(lo, spans, subs) && subs == []
    ensures spans == []
  {
  }

  lemma LastSpan(spans: seq<(nat, nat)>, p: (nat, nat), k: nat)
    ensures SpansAt(spans + [p], k) == SpansAt(spans, k) + if p.0 <= k < p.1 then 1 else 0
  {
    assert (spans + [p])[..|spans|] == spans;
  }

  /** The field spans and the inner scopes of a class tile its body: each position lies in exactly one of them. */
  lemma FieldSpansTileBody(s: string, t: Tree, k: nat)
    requires Correct(s, t) && !t.kind.Plain?
    ensures SpansAt(t.spans, k) + ScopesAt(t.subs, k) == if t.start < k < t.end then 1 else 0
  {
    hide *;
    var front, last := CorrectTiled(s, t);
    BodyOrdered(s, t.start + 1, t.end, t.subs);
    TiledTo(s, t.start + 1, t.end, front, t.subs, k);
    if t.spans == front + [last] {
      LastSpan(front, last, k);
    }
  }

  lemma TiledTo(s: string, lo: nat, hi: nat, spans: seq<(nat, nat)>, subs: seq<Tree>, k: nat)
    requires Body(s, lo, hi, subs) && Gaps(lo, spans, subs)
    ensures SpansAt(spans, k) + ScopesAt(subs, k) == if lo <= k < Resume(lo, subs, |subs|) then 1 else 0
  {
    GapsTile(s, lo, hi, spans, subs, k);
    hide *;
  }

  lemma CorrectTiled(s: string, t: Tree) returns (front: seq<(nat, nat)>, last: (nat, nat))
    requires Correct(s, t) && !t.kind.Plain?
    ensures Body(s, t.start + 1, t.end, t.subs) && Gaps(t.start + 1, front, t.subs)
    ensures last == (Resume(t.start + 1, t.subs, |t.subs|), t.end)
    ensures t.spans == front + [last] || (t.spans == front && last.0 == t.end)
  {
    hide Chain, Matches, NoBraces;
    front, last := t.spans[..|t.subs|], (Resume(t.start + 1, t.subs, |t.subs|), t.end);
  }
}
