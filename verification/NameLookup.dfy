/** How a scoped name is looked up in the tree of scopes. */
module NameLookup {
  import opened Lists

  datatype Scope = Scope(children: map<string, Scope>, usings: map<string, string>, inherit: Option<Scope>)

  /** A lookup may also follow aliases without end. */
  datatype Lookup = Found(scope: Scope) | NotFound | Running

  /** The first `::` of a name, or -1. */
  function Separator(name: string): (i: int)
    ensures -1 <= i <= |name| - 2 || i == -1
    ensures i >= 0 ==> name[i] == ':' && name[i + 1] == ':'
    ensures forall k :: 0 <= k < |name| - 1 && (i == -1 || k < i) ==> !(name[k] == ':' && name[k + 1] == ':')
  {
    if |name| < 2 then -1
    else if name[0] == ':' && name[1] == ':' then 0
    else
      var i := Separator(name[1..]);
      assert forall k :: 1 <= k < |name| ==> name[k] == name[1..][k - 1];
      if i == -1 then -1 else i + 1
  }

  predicate Qualified(name: string) { Separator(name) != -1 }

  function Head(name: string): string
    requires Qualified(name)
  {
    name[..Separator(name)]
  }

  function Rest(name: string): string
    requires Qualified(name)
  {
    name[Separator(name) + 2..]
  }

  /** The lookup with at most `fuel` calls. */
  function FindClass(s: Scope, name: string, fuel: nat): Lookup
    decreases fuel
  {
    if fuel == 0 then Running
    else if Qualified(name) then
      if Head(name) in s.children then FindClass(s.children[Head(name)], Rest(name), fuel - 1)
      else if s.inherit.Some? && name in s.inherit.value.children then
        FindClass(s.inherit.value.children[name], Rest(name), fuel - 1)
      else NotFound
    else if name in s.children then Found(s.children[name])
    else if name in s.usings then FindClass(s, s.usings[name], fuel - 1)
    else if s.inherit.Some? && name in s.inherit.value.children then Found(s.inherit.value.children[name])
    else NotFound
  }

  /** A child shadows an alias of its name, and an alias to a child shadows a class of the base. */
  lemma Shadowing(s: Scope, name: string, fuel: nat)
    requires !Qualified(name) && fuel >= 2
    ensures name in s.children ==> FindClass(s, name, fuel) == Found(s.children[name])
    ensures name !in s.children && name in s.usings && s.usings[name] in s.children && !Qualified(s.usings[name]) ==>
              FindClass(s, name, fuel) == Found(s.children[s.usings[name]])
  {
  }

  /** Child names are single words. */
  ghost predicate Words(s: Scope) {
    && (forall n :: n in s.children ==> ':' !in n && Words(s.children[n]))
    && (s.inherit.Some? ==> Words(s.inherit.value))
  }

  /** So a qualified name is never found in the base class as a whole. */
  lemma QualifiedSkipsBase(s: Scope, name: string, fuel: nat)
    requires Words(s) && Qualified(name) && fuel > 0
    ensures !(s.inherit.Some? && name in s.inherit.value.children)
    ensures FindClass(s, name, fuel) ==
              if Head(name) in s.children then FindClass(s.children[Head(name)], Rest(name), fuel - 1) else NotFound
  {
  }

  lemma {:induction false} MoreFuel(s: Scope, name: string, f: nat, g: nat)
    requires f <= g && FindClass(s, name, f) != Running
    ensures FindClass(s, name, g) == FindClass(s, name, f)
    decreases f
  {
    if Qualified(name) {
      if Head(name) in s.children {
        MoreFuel(s.children[Head(name)], Rest(name), f - 1, g - 1);
      } else if s.inherit.Some? && name in s.inherit.value.children {
        MoreFuel(s.inherit.value.children[name], Rest(name), f - 1, g - 1);
      }
    } else if name !in s.children && name in s.usings {
      MoreFuel(s, s.usings[name], f - 1, g - 1);
    }
  }

  predicate Aliased(s: Scope, name: string) {
    !Qualified(name) && name !in s.children && name in s.usings
  }

  /** The name after up to `k` aliases of one scope are followed. */
  function After(s: Scope, name: string, k: nat): string
    decreases k
  {
    if k == 0 || !Aliased(s, name) then name else After(s, s.usings[name], k - 1)
  }

  /** The aliases lead out of every scope that the name leads into; no more of them than the scope has need be followed. */
  ghost predicate Resolvable(s: Scope, name: string) {
    exists k: nat :: k <= |s.usings| && LeadsOut(s, name, k)
  }

  ghost predicate LeadsOut(s: Scope, name: string, k: nat)
    decreases s, 0
  {
    var m := After(s, name, k);
    && !Aliased(s, m)
    && (Qualified(m) && Head(m) in s.children ==>
         var child := s.children[Head(m)];
         exists j: nat :: j <= |child.usings| && LeadsOut(child, Rest(m), j))
  }

  lemma {:induction false} FollowAliases(s: Scope, name: string, k: nat, fuel: nat)
    requires FindClass(s, After(s, name, k), fuel) != Running
    ensures FindClass(s, name, fuel + k) == FindClass(s, After(s, name, k), fuel)
    decreases k
  {
    if k > 0 && Aliased(s, name) {
      FollowAliases(s, s.usings[name], k - 1, fuel);
    } else {
      MoreFuel(s, name, fuel, fuel + k);
    }
  }

  lemma {:induction false} ResolvableEnds(s: Scope, name: string, k: nat) returns (fuel: nat)
    requires Words(s) && LeadsOut(s, name, k)
    ensures FindClass(s, name, fuel) != Running
    decreases s
  {
    hide Separator, After, Head, Rest;
    var m := After(s, name, k);
    fuel := 1;
    if Qualified(m) && Head(m) in s.children {
      var child := s.children[Head(m)];
      var j: nat :| j <= |child.usings| && LeadsOut(child, Rest(m), j);
      var f := ResolvableEnds(child, Rest(m), j);
      fuel := f + 1;
    }
    FollowAliases(s, name, k, fuel);
    fuel := fuel + k;
  }

  /** Following aliases composes. */
  lemma {:induction false} AfterAfter(s: Scope, name: string, i: nat, j: nat)
    ensures After(s, After(s, name, i), j) == After(s, name, i + j)
    decreases i
  {
    if i > 0 && Aliased(s, name) {
      AfterAfter(s, s.usings[name], i - 1, j);
    }
  }

  ghost predicate AlwaysAliased(s: Scope, name: string) {
    forall k: nat :: Aliased(s, After(s, name, k))
  }

  lemma LongChainRepeats(s: Scope, name: string) returns (i: nat, j: nat)
    requires forall k: nat :: k <= |s.usings| ==> Aliased(s, After(s, name, k))
    ensures i < j <= |s.usings| && After(s, name, i) == After(s, name, j)
  {
    var n := |s.usings|;
    var names := seq(n + 1, k requires 0 <= k <= n => After(s, name, k));
    if NoDup(names) {
      CardElems(names);
      assert Elems(names) <= s.usings.Keys;
      SubsetSize(Elems(names), s.usings.Keys);
    }
    i, j :| 0 <= i < j < |names| && names[i] == names[j];
  }

  /** More aliases in a row than the scope has repeat a name, and so never end. */
  lemma LongChainCycles(s: Scope, name: string)
    requires forall k: nat :: k <= |s.usings| ==> Aliased(s, After(s, name, k))
    ensures AlwaysAliased(s, name)
  {
    var i, j := LongChainRepeats(s, name);
    forall k: nat
      ensures Aliased(s, After(s, name, k))
    {
      Periodic(s, name, i, j, k);
    }
  }

  lemma {:induction false} Periodic(s: Scope, name: string, i: nat, j: nat, k: nat)
    requires i < j && After(s, name, i) == After(s, name, j)
    requires forall l: nat :: l <= j ==> Aliased(s, After(s, name, l))
    ensures Aliased(s, After(s, name, k))
    decreases k
  {
    if k > j {
      Periodic(s, name, i, j, k - (j - i));
      AfterAfter(s, name, i, k - j);
      AfterAfter(s, name, j, k - j);
    }
  }

  lemma {:induction false} CycleRuns(s: Scope, name: string, fuel: nat)
    requires AlwaysAliased(s, name)
    ensures FindClass(s, name, fuel) == Running
    decreases fuel
  {
    if fuel > 0 {
      assert Aliased(s, After(s, name, 0));
      forall k: nat
        ensures Aliased(s, After(s, s.usings[name], k))
      {
        AfterAfter(s, name, 1, k);
        assert Aliased(s, After(s, name, 1 + k));
      }
      CycleRuns(s, s.usings[name], fuel - 1);
    }
  }

  lemma {:induction false} RunsBeyondAliases(s: Scope, name: string, k: nat, m: string, fuel: nat)
    requires m == After(s, name, k) && forall f: nat :: FindClass(s, m, f) == Running
    ensures FindClass(s, name, fuel) == Running
    decreases k
  {
    if k > 0 && Aliased(s, name) && fuel > 0 {
      RunsBeyondAliases(s, s.usings[name], k - 1, m, fuel - 1);
    }
  }

  lemma {:induction false} UnresolvableRuns(s: Scope, name: string, fuel: nat)
    requires Words(s) && !Resolvable(s, name)
    ensures FindClass(s, name, fuel) == Running
    decreases s
  {
    if forall k: nat :: k <= |s.usings| ==> Aliased(s, After(s, name, k)) {
      LongChainCycles(s, name);
      CycleRuns(s, name, fuel);
    } else {
      var k: nat :| k <= |s.usings| && !Aliased(s, After(s, name, k));
      var m := After(s, name, k);
      assert !LeadsOut(s, name, k);
      var child := s.children[Head(m)];
      forall f: nat
        ensures FindClass(s, m, f) == Running
      {
        UnresolvableRuns(child, Rest(m), if f == 0 then 0 else f - 1);
      }
      RunsBeyondAliases(s, name, k, m, fuel);
    }
  }

  ghost predicate Ends(s: Scope, name: string) {
    exists fuel: nat :: FindClass(s, name, fuel) != Running
  }

  /** The lookup ends exactly for resolvable names. */
  lemma LookupEndsIff(s: Scope, name: string)
    requires Words(s)
    ensures Ends(s, name) <==> Resolvable(s, name)
  {
    if Resolvable(s, name) {
      var k: nat :| k <= |s.usings| && LeadsOut(s, name, k);
      var fuel := ResolvableEnds(s, name, k);
    } else {
      forall fuel: nat
        ensures FindClass(s, name, fuel) == Running
      {
        UnresolvableRuns(s, name, fuel);
      }
    }
  }

  /** A name that is an alias of itself is looked up without end. */
  lemma SelfAliasRuns(fuel: nat)
    ensures FindClass(Scope(map[], map["a" := "a"], None), "a", fuel) == Running
  {
    var s := Scope(map[], map["a" := "a"], None);
    forall k: nat
      ensures Aliased(s, After(s, "a", k))
    {
      SelfAlias(s, "a", k);
    }
    CycleRuns(s, "a", fuel);
  }

  lemma {:induction false} SelfAlias(s: Scope, name: string, k: nat)
    requires Aliased(s, name) && s.usings[name] == name
    ensures After(s, name, k) == name
    decreases k
  {
    if k > 0 {
      SelfAlias(s, name, k - 1);
    }
  }

  /** No chain of aliases of the scope comes back to a name. */
  ghost predicate Acyclic(s: Scope) {
    forall name: string, k: nat :: k > 0 && Aliased(s, name) ==> After(s, name, k) != name
  }

  ghost predicate AllAcyclic(s: Scope) {
    Acyclic(s) && forall n :: n in s.children ==> AllAcyclic(s.children[n])
  }

  lemma AcyclicChainEnds(s: Scope, name: string) returns (k: nat)
    requires Acyclic(s)
    ensures k <= |s.usings| && !Aliased(s, After(s, name, k))
  {
    if forall k: nat :: k <= |s.usings| ==> Aliased(s, After(s, name, k)) {
      var i, j := LongChainRepeats(s, name);
      AfterAfter(s, name, i, j - i);
    } else {
      k :| k <= |s.usings| && !Aliased(s, After(s, name, k));
    }
  }

  lemma {:induction false} AcyclicResolvable(s: Scope, name: string)
    requires AllAcyclic(s)
    ensures Resolvable(s, name)
    decreases s
  {
    var k := AcyclicChainEnds(s, name);
    var m := After(s, name, k);
    if Qualified(m) && Head(m) in s.children {
      AcyclicResolvable(s.children[Head(m)], Rest(m));
    }
    assert LeadsOut(s, name, k);
  }

  lemma CycleIsAlways(s: Scope, name: string, k: nat, l: nat)
    requires k > 0 && Aliased(s, name) && After(s, name, k) == name
    ensures l <= k ==> Aliased(s, After(s, name, l))
  {
    if l <= k {
      AfterAfter(s, name, l, k - l);
    }
  }

  lemma CycleUnresolvable(s: Scope, name: string, k: nat)
    requires k > 0 && Aliased(s, name) && After(s, name, k) == name
    ensures !Resolvable(s, name)
  {
    forall l: nat
      ensures Aliased(s, After(s, name, l))
    {
      forall i: nat | i <= k
        ensures Aliased(s, After(s, name, i))
      {
        CycleIsAlways(s, name, k, i);
      }
      Periodic(s, name, 0, k, l);
    }
  }

  lemma LeadsIntoChild(s: Scope, name: string, k: nat)
    requires LeadsOut(s, name, k) && Qualified(After(s, name, k)) && Head(After(s, name, k)) in s.children
    ensures Resolvable(s.children[Head(After(s, name, k))], Rest(After(s, name, k)))
  {
    hide Separator, After, Aliased;
  }

  lemma ResolvableInChild(s: Scope, n: string, rest: string)
    requires n in s.children && ':' !in n
    ensures Resolvable(s, n + "::" + rest) ==> Resolvable(s.children[n], rest)
  {
    FirstSeparator(n, rest);
    var name := n + "::" + rest;
    if Resolvable(s, name) {
      var k: nat :| k <= |s.usings| && LeadsOut(s, name, k);
      assert After(s, name, k) == name;
      LeadsIntoChild(s, name, k);
    }
  }

  lemma {:induction false} CyclicFails(s: Scope) returns (name: string)
    requires Words(s) && !AllAcyclic(s)
    ensures !Resolvable(s, name)
    decreases s
  {
    if !Acyclic(s) {
      var k: nat;
      name, k :| k > 0 && Aliased(s, name) && After(s, name, k) == name;
      CycleUnresolvable(s, name, k);
    } else {
      var n :| n in s.children && !AllAcyclic(s.children[n]);
      var rest := CyclicFails(s.children[n]);
      name := n + "::" + rest;
      ResolvableInChild(s, n, rest);
    }
  }

  /** Every lookup from a scope ends if and only if no scope of its tree has cyclic aliases. */
  lemma EveryLookupEndsIff(s: Scope)
    requires Words(s)
    ensures (forall name: string :: Ends(s, name)) <==> AllAcyclic(s)
  {
    hide Ends, Resolvable, AllAcyclic, Words;
    forall name: string
      ensures Ends(s, name) <==> Resolvable(s, name)
    {
      LookupEndsIff(s, name);
    }
    if AllAcyclic(s) {
      forall name: string
        ensures Resolvable(s, name)
      {
        AcyclicResolvable(s, name);
      }
    } else {
      var name := CyclicFails(s);
    }
  }

  /** A name made of components. */
  function Join(path: seq<string>, last: string): string {
    if path == [] then last else path[0] + "::" + Join(path[1..], last)
  }

  /** The scope that a path of child names leads to. */
  function Descend(s: Scope, path: seq<string>): Option<Scope>
    decreases |path|
  {
    if path == [] then Some(s)
    else if path[0] in s.children then Descend(s.children[path[0]], path[1..])
    else None
  }

  lemma FirstSeparator(word: string, rest: string)
    requires ':' !in word
    ensures var name := word + "::" + rest;
            Separator(name) == |word| && Head(name) == word && Rest(name) == rest
  {
    var name := word + "::" + rest;
    assert name[|word|] == ':' && name[|word| + 1] == ':';
    assert forall k :: 0 <= k < |word| ==> name[k] == word[k];
  }

  lemma JoinNone(last: string)
    ensures Join([], last) == last
  {
  }

  lemma JoinParts(path: seq<string>, last: string)
    requires path != [] && ':' !in path[0]
    ensures var name := Join(path, last);
            Qualified(name) && Head(name) == path[0] && Rest(name) == Join(path[1..], last)
  {
    FirstSeparator(path[0], Join(path[1..], last));
  }

  /** A qualified name descends child by child, past aliases and bases; only its last component consults those. */
  lemma {:induction false} QualifiedDescends(s: Scope, path: seq<string>, last: string, fuel: nat)
    requires Words(s) && forall w :: w in path ==> ':' !in w
    requires fuel > 0
    ensures FindClass(s, Join(path, last), fuel + |path|) ==
              match Descend(s, path) { case None => NotFound case Some(t) => FindClass(t, last, fuel) }
    decreases |path|
  {
    hide Separator, Head, Rest, Join;
    if path == [] {
      JoinNone(last);
    } else {
      JoinParts(path, last);
      QualifiedSkipsBase(s, Join(path, last), fuel + |path|);
      if path[0] in s.children {
        QualifiedDescends(s.children[path[0]], path[1..], last, fuel);
      }
    }
  }

  /** A name as seen from a scope. */
  datatype Place = Place(scope: Scope, name: string)

  /** An alias is replaced within its scope; a qualified name goes on inside the child it begins with. */
  ghost predicate Moves(a: Place, b: Place) {
    || (Aliased(a.scope, a.name) && b == Place(a.scope, a.scope.usings[a.name]))
    || (Qualified(a.name) && Head(a.name) in a.scope.children && b == Place(a.scope.children[Head(a.name)], Rest(a.name)))
  }

  /** The answer for a name that leads no further: a child, or else a class of the base. */
  ghost predicate Answers(a: Place, r: Lookup) {
    && !Aliased(a.scope, a.name) && !(Qualified(a.name) && Head(a.name) in a.scope.children)
    && r == if Qualified(a.name) then NotFound
            else if a.name in a.scope.children then Found(a.scope.children[a.name])
            else if a.scope.inherit.Some? && a.name in a.scope.inherit.value.children then Found(a.scope.inherit.value.children[a.name])
            else NotFound
  }

  ghost predicate MovesAt(way: seq<Place>, i: nat)
    requires i + 1 < |way|
  {
    Moves(way[i], way[i + 1])
  }

  ghost predicate Way(way: seq<Place>, s: Scope, name: string, r: Lookup) {
    && way != [] && way[0] == Place(s, name) && Answers(way[|way| - 1], r)
    && forall i: nat :: i < |way| - 1 ==> MovesAt(way, i)
  }

  lemma {:induction false} WayOf(s: Scope, name: string, fuel: nat) returns (way: seq<Place>)
    requires Words(s) && FindClass(s, name, fuel) != Running
    ensures Way(way, s, name, FindClass(s, name, fuel))
    decreases fuel
  {
    var a := Place(s, name);
    if Aliased(s, name) {
      var rest := WayOf(s, s.usings[name], fuel - 1);
      way := LongerWay(a, rest, FindClass(s, name, fuel));
    } else if Qualified(name) {
      QualifiedSkipsBase(s, name, fuel);
      if Head(name) in s.children {
        var rest := WayOf(s.children[Head(name)], Rest(name), fuel - 1);
        way := LongerWay(a, rest, FindClass(s, name, fuel));
      } else {
        way := [a];
      }
    } else {
      way := [a];
    }
  }

  lemma LongerWay(a: Place, rest: seq<Place>, r: Lookup) returns (way: seq<Place>)
    requires rest != [] && Way(rest, rest[0].scope, rest[0].name, r) && Moves(a, rest[0])
    ensures Way(way, a.scope, a.name, r)
  {
    hide Answers, Moves;
    way := [a] + rest;
    forall i: nat | i < |way| - 1
      ensures MovesAt(way, i)
    {
      if i > 0 {
        assert MovesAt(rest, i - 1);
      }
    }
  }

  lemma {:induction false} FoundAlong(way: seq<Place>, s: Scope, name: string, r: Lookup)
    requires Words(s) && Way(way, s, name, r)
    ensures FindClass(s, name, |way|) == r
    decreases |way|
  {
    if |way| > 1 {
      assert MovesAt(way, 0);
      var rest := way[1..];
      forall i: nat | i < |rest| - 1
        ensures MovesAt(rest, i)
      {
        assert MovesAt(way, i + 1);
      }
      FoundAlong(rest, rest[0].scope, rest[0].name, r);
    }
    if Qualified(name) {
      QualifiedSkipsBase(s, name, |way|);
    }
  }

  /** What a lookup returns is the answer at the end of the way that aliases and children lead along, and there is no other. */
  lemma LookupFollowsWay(s: Scope, name: string, r: Lookup)
    requires Words(s) && r != Running
    ensures (exists fuel: nat :: FindClass(s, name, fuel) == r) <==> (exists way: seq<Place> :: Way(way, s, name, r))
  {
    if fuel: nat :| FindClass(s, name, fuel) == r {
      var way := WayOf(s, name, fuel);
    }
    if way: seq<Place> :| Way(way, s, name, r) {
      FoundAlong(way, s, name, r);
    }
  }

  lemma OneAnswer(s: Scope, name: string, way: seq<Place>, r: Lookup, other: seq<Place>, q: Lookup)
    requires Words(s) && Way(way, s, name, r) && Way(other, s, name, q)
    ensures r == q
  {
    FoundAlong(way, s, name, r);
    FoundAlong(other, s, name, q);
    if |way| <= |other| {
      MoreFuel(s, name, |way|, |other|);
    } else {
      MoreFuel(s, name, |other|, |way|);
    }
  }
}
