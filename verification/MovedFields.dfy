/** What the header of the tool promises: a moved field is accepted when exactly one side of the move is marked. */
module MovedFields {
  import opened Lists
  import opened FieldMatching

  /** A class `pre + a + b + post` whose reflection lists `b` before `a`. */
  datatype Move = Move(pre: seq<string>, a: seq<string>, b: seq<string>, post: seq<string>) {
    ghost predicate Valid() {
      NoDup(Fields()) && a != [] && b != []
    }

    ghost function Fields(): seq<string> { pre + a + b + post }
    ghost function Reflected(): seq<string> { pre + b + a + post }

    ghost function Marked(swaps: seq<string>): Problem {
      Problem(Fields(), Reflected(), [], swaps)
    }

    ghost predicate Disjoint() {
      && Elems(pre) !! Elems(a) && Elems(pre) !! Elems(b) && Elems(pre) !! Elems(post)
      && Elems(a) !! Elems(b) && Elems(a) !! Elems(post) && Elems(b) !! Elems(post)
    }
  }

  lemma Apart<T>(s: seq<T>, t: seq<T>)
    requires NoDup(s + t)
    ensures Elems(s) !! Elems(t) && NoDup(s) && NoDup(t)
  {
    forall x | x in Elems(s)
      ensures x !in Elems(t)
    {
      var i :| 0 <= i < |s| && s[i] == x;
      forall j | 0 <= j < |t|
        ensures t[j] != x
      {
        assert (s + t)[i] == x && (s + t)[|s| + j] == t[j];
      }
    }
    forall i, j | 0 <= i < j < |s|
      ensures s[i] != s[j]
    {
      assert (s + t)[i] == s[i] && (s + t)[j] == s[j];
    }
    forall i, j | 0 <= i < j < |t|
      ensures t[i] != t[j]
    {
      assert (s + t)[|s| + i] == t[i] && (s + t)[|s| + j] == t[j];
    }
  }

  lemma ElemsConcat<T>(s: seq<T>, t: seq<T>)
    ensures Elems(s + t) == Elems(s) + Elems(t)
  {
  }

  lemma ElemsMove(v: Move)
    ensures Elems(v.Fields()) == Elems(v.pre) + Elems(v.a) + Elems(v.b) + Elems(v.post)
    ensures Elems(v.Reflected()) == Elems(v.pre) + Elems(v.a) + Elems(v.b) + Elems(v.post)
  {
    ElemsConcat(v.pre + v.a + v.b, v.post);
    ElemsConcat(v.pre + v.a, v.b);
    ElemsConcat(v.pre, v.a);
    ElemsConcat(v.pre + v.b + v.a, v.post);
    ElemsConcat(v.pre + v.b, v.a);
    ElemsConcat(v.pre, v.b);
  }

  lemma Parts(v: Move)
    requires v.Valid()
    ensures v.Disjoint() && NoDup(v.a) && NoDup(v.b) && NoDup(v.Reflected())
  {
    Apart(v.pre + v.a + v.b, v.post);
    Apart(v.pre + v.a, v.b);
    Apart(v.pre, v.a);
    ElemsConcat(v.pre + v.a, v.b);
    ElemsConcat(v.pre, v.a);
    NoDupConcat(v.pre, v.b);
    ElemsConcat(v.pre, v.b);
    NoDupConcat(v.pre + v.b, v.a);
    ElemsConcat(v.pre + v.b, v.a);
    NoDupConcat(v.pre + v.b + v.a, v.post);
  }

  /** Striking out marks block by block. */
  lemma WithoutMove(v: Move, out: set<string>)
    requires v.Valid()
    requires out <= Elems(v.a) + Elems(v.b)
    ensures Without(v.Fields(), out) == v.pre + Without(v.a, out) + Without(v.b, out) + v.post
    ensures Without(v.Reflected(), out) == v.pre + Without(v.b, out) + Without(v.a, out) + v.post
  {
    Parts(v);
    WithoutConcat(v.pre + v.a + v.b, v.post, out);
    WithoutConcat(v.pre + v.a, v.b, out);
    WithoutConcat(v.pre, v.a, out);
    WithoutConcat(v.pre + v.b + v.a, v.post, out);
    WithoutConcat(v.pre + v.b, v.a, out);
    WithoutConcat(v.pre, v.b, out);
    WithoutNone(v.pre, out);
    WithoutNone(v.post, out);
  }

  /** Marking one side, or both, leaves the rest in order. */
  lemma MarksKeepOrder(v: Move, out: set<string>)
    requires v.Valid()
    requires out == Elems(v.a) || out == Elems(v.b) || out == Elems(v.a) + Elems(v.b)
    ensures Without(v.Fields(), out) == Without(v.Reflected(), out)
  {
    WithoutMove(v, out);
    if Elems(v.a) <= out {
      WithoutAll(v.a, out);
    } else {
      WithoutAll(v.b, out);
    }
  }

  /** So it describes the move; marking neither does not. */
  lemma MarksDescribeMove(v: Move, swaps: seq<string>)
    requires v.Valid()
    requires Elems(swaps) == Elems(v.a) || Elems(swaps) == Elems(v.b) || Elems(swaps) == Elems(v.a) + Elems(v.b)
    ensures Mirrors(v.Marked(swaps))
  {
    ElemsMove(v);
    var p := v.Marked(swaps);
    assert p.Ignores() == {};
    assert p.Marked() == p.Swaps();
    MarksKeepOrder(v, p.Swaps());
  }

  lemma UnmarkedMoveRejected(v: Move)
    requires v.Valid()
    ensures !Accepted(v.Marked([]))
  {
    Parts(v);
    var p := v.Marked([]);
    assert p.Marked() == {} && p.Swaps() == {};
    WithoutMove(v, {});
    WithoutNone(v.a, {});
    WithoutNone(v.b, {});
    var i := |v.pre|;
    assert v.Fields()[i] == v.a[0] && v.Reflected()[i] == v.b[0];
    assert v.a[0] in Elems(v.a) && v.b[0] in Elems(v.b);
    assert Without(v.Fields(), {})[i] == v.a[0] && Without(v.Reflected(), {})[i] == v.b[0];
  }

  /** Where an element of a block stands on either side, and what precedes it in the reflection. */
  lemma PlaceOf(v: Move, n: nat, q: nat)
    requires v.Valid() && n < |v.Fields()| && q < |v.Reflected()| && v.Fields()[n] == v.Reflected()[q]
    ensures v.Fields()[n] in Elems(v.a) ==> |v.pre| <= n < |v.pre| + |v.a| && q == n + |v.b|
    ensures v.Fields()[n] in Elems(v.a) && |v.pre| < n ==> v.Reflected()[q - 1] in Elems(v.a)
    ensures v.Fields()[n] in Elems(v.b) ==> |v.pre| <= q < |v.pre| + |v.b| && n == q + |v.a|
    ensures v.Fields()[n] in Elems(v.b) && |v.pre| < q ==> v.Reflected()[q - 1] in Elems(v.b)
  {
    Parts(v);
    var x := v.Fields()[n];
    if x in Elems(v.a) {
      var i :| 0 <= i < |v.a| && v.a[i] == x;
      assert v.Fields()[|v.pre| + i] == x && v.Reflected()[|v.pre| + |v.b| + i] == x;
      assert i > 0 ==> v.Reflected()[|v.pre| + |v.b| + i - 1] == v.a[i - 1] && v.a[i - 1] in Elems(v.a);
    }
    if x in Elems(v.b) {
      var i :| 0 <= i < |v.b| && v.b[i] == x;
      assert v.Fields()[|v.pre| + |v.a| + i] == x && v.Reflected()[|v.pre| + i] == x;
      assert i > 0 ==> v.Reflected()[|v.pre| + i - 1] == v.b[i - 1] && v.b[i - 1] in Elems(v.b);
    }
  }

  /** How many unmarked fields precede the two blocks, on either side. */
  lemma KeptBefore(v: Move, out: set<string>, a: nat)
    requires v.Valid() && a <= |v.pre|
    ensures out == Elems(v.a) ==>
              |Without(v.Fields()[..a], out)| == a && |Without(v.Reflected()[..|v.pre| + |v.b|], out)| == |v.pre| + |v.b|
    ensures out == Elems(v.b) ==>
              |Without(v.Fields()[..|v.pre| + |v.a|], out)| == |v.pre| + |v.a| && |Without(v.Reflected()[..|v.pre|], out)| == |v.pre|
  {
    Parts(v);
    ElemsConcat(v.pre, v.a);
    ElemsConcat(v.pre, v.b);
    if out == Elems(v.a) {
      assert v.Fields()[..a] == v.pre[..a] && v.Reflected()[..|v.pre| + |v.b|] == v.pre + v.b;
      assert Elems(v.pre[..a]) <= Elems(v.pre);
      WithoutNone(v.pre[..a], out);
      WithoutNone(v.pre + v.b, out);
    }
    if out == Elems(v.b) {
      assert v.Fields()[..|v.pre| + |v.a|] == v.pre + v.a && v.Reflected()[..|v.pre|] == v.pre;
      WithoutNone(v.pre, out);
      WithoutNone(v.pre + v.a, out);
    }
  }

  /** Marking the block that comes first in the class. */
  lemma FirstMarkedAccepted(v: Move, swaps: seq<string>)
    requires v.Valid() && Elems(swaps) == Elems(v.a)
    ensures Accepted(v.Marked(swaps))
  {
    hide NoDup, Without, Mirrors;
    MarksDescribeMove(v, swaps);
    var p := v.Marked(swaps);
    assert p.Marked() == p.Swaps();
    forall a: nat, n: nat, q: nat
      ensures !InPlaceSwap(p, a, n, q)
    {
      if n < |p.fields| && q < |p.reflected| && p.fields[n] == p.reflected[q] {
        PlaceOf(v, n, q);
        if a <= |v.pre| {
          KeptBefore(v, p.Swaps(), a);
        }
      }
    }
  }

  /** Marking the block that comes second in the class. */
  lemma SecondMarkedAccepted(v: Move, swaps: seq<string>)
    requires v.Valid() && Elems(swaps) == Elems(v.b)
    ensures Accepted(v.Marked(swaps))
  {
    hide NoDup, Without, Mirrors;
    MarksDescribeMove(v, swaps);
    Parts(v);
    var p := v.Marked(swaps);
    assert p.Marked() == p.Swaps();
    var before := |v.pre| + |v.a|;
    assert p.fields[before - 1] == v.a[|v.a| - 1] && v.a[|v.a| - 1] in Elems(v.a);
    KeptBefore(v, p.Swaps(), 0);
    forall a: nat, n: nat, q: nat
      ensures !InPlaceSwap(p, a, n, q)
    {
      if n < |p.fields| && q < |p.reflected| && p.fields[n] == p.reflected[q] {
        PlaceOf(v, n, q);
      }
    }
  }

  /** Marking both blocks. */
  lemma BothMarkedRejected(v: Move, swaps: seq<string>)
    requires v.Valid() && Elems(swaps) == Elems(v.a) + Elems(v.b)
    ensures !Accepted(v.Marked(swaps))
  {
    hide NoDup, Without, Mirrors;
    Parts(v);
    var p := v.Marked(swaps);
    assert p.Marked() == p.Swaps();
    var a := |v.pre|;
    var n := a + |v.a|;
    assert p.fields[..a] == v.pre && p.reflected[..a] == v.pre;
    assert p.fields[n] == v.b[0] && p.reflected[a] == v.b[0] && v.b[0] in Elems(v.b);
    forall j | a <= j < n
      ensures p.fields[j] in p.Swaps() - p.RSeen(a)
    {
      assert p.fields[j] == v.a[j - a] && v.a[j - a] in Elems(v.a);
    }
    if a > 0 {
      assert p.fields[a - 1] == v.pre[a - 1] == p.reflected[a - 1] && v.pre[a - 1] in Elems(v.pre);
    }
    WithoutNone(v.pre, p.Swaps());
    assert InPlaceSwap(p, a, n, a);
  }

  /** The law as documented: one field moved across others, in either direction, and the mark that goes with it. */
  lemma MovedFieldLaw(pre: seq<string>, x: string, m: seq<string>, post: seq<string>, both: seq<string>)
    requires m != [] && NoDup(pre + [x] + m + post) && NoDup(pre + m + [x] + post)
    requires Elems(both) == Elems([x] + m)
    ensures
      var later, earlier := Move(pre, [x], m, post), Move(pre, m, [x], post);
      && Accepted(later.Marked([x])) && Accepted(earlier.Marked([x]))
      && Accepted(later.Marked(m)) && Accepted(earlier.Marked(m))
      && !Accepted(later.Marked([])) && !Accepted(earlier.Marked([]))
      && !Accepted(later.Marked(both)) && !Accepted(earlier.Marked(both))
  {
    var later, earlier := Move(pre, [x], m, post), Move(pre, m, [x], post);
    ElemsConcat([x], m);
    FirstMarkedAccepted(later, [x]);
    FirstMarkedAccepted(earlier, m);
    SecondMarkedAccepted(later, m);
    SecondMarkedAccepted(earlier, [x]);
    UnmarkedMoveRejected(later);
    UnmarkedMoveRejected(earlier);
    BothMarkedRejected(later, both);
    BothMarkedRejected(earlier, both);
  }

  /** The parts of a list around one element. */
  lemma AroundElems(pre: seq<string>, x: string, post: seq<string>)
    requires NoDup(pre + [x] + post)
    ensures NoDup(pre + post) && Elems(pre + post) == Elems(pre) + Elems(post)
    ensures Elems(pre + [x] + post) == Elems(pre) + {x} + Elems(post) && x !in Elems(pre) && x !in Elems(post)
  {
    Apart(pre + [x], post);
    Apart(pre, [x]);
    ElemsConcat(pre + [x], post);
    ElemsConcat(pre, [x]);
    hide NoDup;
    assert Elems([x]) == {x};
    hide Elems;
    NoDupConcat(pre, post);
  }

  lemma AroundWithout(pre: seq<string>, x: string, post: seq<string>)
    requires x !in Elems(pre) && x !in Elems(post)
    ensures Without(pre + [x] + post, {x}) == pre + post && Without(pre + post, {}) == pre + post
  {
    hide Without, Elems;
    OneMark(x);
    WithoutConcat(pre + [x], post, {x});
    WithoutConcat(pre, [x], {x});
    WithoutNone(pre, {x});
    WithoutNone(post, {x});
    WithoutAll([x], {x});
    WithoutNone(pre + post, {});
  }

  /** A field that is not reflected has to be ignored, and cannot be swapped instead. */
  lemma UnreflectedField(pre: seq<string>, x: string, post: seq<string>)
    requires NoDup(pre + [x] + post)
    ensures NoDup(pre + post)
    ensures Accepted(Problem(pre + [x] + post, pre + post, [x], []))
    ensures !Accepted(Problem(pre + [x] + post, pre + post, [], [x]))
  {
    AroundElems(pre, x, post);
    hide NoDup, Elems, Accepted;
    UnreflectedSwap(pre, x, post);
    UnreflectedIgnore(pre, x, post);
  }

  lemma UnreflectedSwap(pre: seq<string>, x: string, post: seq<string>)
    requires x !in Elems(pre + post)
    ensures !Accepted(Problem(pre + [x] + post, pre + post, [], [x]))
  {
    OneMark(x);
    assert x in Problem(pre + [x] + post, pre + post, [], [x]).Swaps();
  }

  lemma UnreflectedIgnore(pre: seq<string>, x: string, post: seq<string>)
    requires NoDup(pre + [x] + post)
    ensures Accepted(Problem(pre + [x] + post, pre + post, [x], []))
  {
    AroundElems(pre, x, post);
    AroundWithout(pre, x, post);
    OneMark(x);
    hide NoDup, Without, Elems;
    var p := Problem(pre + [x] + post, pre + post, [x], []);
    assert p.Marked() == {x} && p.Swaps() == {};
  }

  lemma OneMark(x: string)
    ensures Elems([x]) == {x} && Elems<string>([]) == {}
  {
  }

  /** A field that is only moved cannot be ignored. */
  lemma MovedFieldNotIgnored(pre: seq<string>, x: string, m: seq<string>, post: seq<string>)
    ensures !Accepted(Problem(pre + [x] + m + post, pre + m + [x] + post, [x], []))
  {
    var p := Problem(pre + [x] + m + post, pre + m + [x] + post, [x], []);
    assert p.reflected[|pre| + |m|] == x;
    assert x in Elems(p.reflected) && x in p.Ignores();
  }
}
