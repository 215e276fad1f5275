/** Facts about duplicate-free lists, lists with some elements struck out, and finite sets. */
module Lists {

  datatype Option<T> = None | Some(value: T)

  lemma {:induction false} SubsetSize<T>(a: set<T>, b: set<T>)
    requires a <= b
    ensures |a| <= |b|
  {
    if a != {} {
      var x :| x in a;
      SubsetSize(a - {x}, b - {x});
    }
  }

  ghost function Elems<T>(s: seq<T>): set<T> {
    set x | x in s
  }

  ghost predicate NoDup<T>(s: seq<T>) {
    forall i, j :: 0 <= i < j < |s| ==> s[i] != s[j]
  }

  /** Python's `list.remove` on a list that holds the element: the first occurrence goes. */
  function Remove<T(==)>(s: seq<T>, x: T): (r: seq<T>)
    requires x in s
  {
    if s[0] == x then s[1..] else [s[0]] + Remove(s[1..], x)
  }

  lemma {:induction false} RemoveNoDup<T>(s: seq<T>, x: T)
    requires x in s && NoDup(s)
    ensures NoDup(Remove(s, x))
    ensures Elems(Remove(s, x)) == Elems(s) - {x}
  {
    var tail := s[1..];
    assert s == [s[0]] + tail;
    if s[0] != x {
      RemoveNoDup(tail, x);
      assert s[0] !in tail;
      assert s[0] !in Elems(Remove(tail, x));
      NoDupCons(s[0], Remove(tail, x));
    }
  }

  lemma {:induction false} RemoveKeeps<T>(s: seq<T>, x: T, y: T)
    requires x in s && y in s && x != y
    ensures y in Remove(s, x)
  {
    assert s == [s[0]] + s[1..];
    if s[0] != x && s[0] != y {
      RemoveKeeps(s[1..], x, y);
    }
  }

  lemma NoDupCons<T>(x: T, s: seq<T>)
    requires NoDup(s) && x !in Elems(s)
    ensures NoDup([x] + s)
    ensures Elems([x] + s) == Elems(s) + {x}
  {
    assert forall i :: 0 <= i < |s| ==> s[i] in Elems(s);
  }

  lemma NoDupSnoc<T>(s: seq<T>, x: T)
    requires NoDup(s) && x !in Elems(s)
    ensures NoDup(s + [x])
    ensures Elems(s + [x]) == Elems(s) + {x}
  {
    assert forall i :: 0 <= i < |s| ==> s[i] in Elems(s);
  }

  lemma NoDupConcat<T>(s: seq<T>, t: seq<T>)
    requires NoDup(s) && NoDup(t) && Elems(s) !! Elems(t)
    ensures NoDup(s + t) && Elems(s + t) == Elems(s) + Elems(t)
  {
    forall i, j | 0 <= i < j < |s + t|
      ensures (s + t)[i] != (s + t)[j]
    {
      if i < |s| <= j {
        assert s[i] in Elems(s) && t[j - |s|] in Elems(t);
      }
    }
  }

  lemma {:induction false} CardElems<T>(s: seq<T>)
    requires NoDup(s)
    ensures |Elems(s)| == |s|
  {
    if s != [] {
      var front, last := s[..|s| - 1], s[|s| - 1];
      CardElems(front);
      assert Elems(s) == Elems(front) + {last};
    }
  }

  /** What is left of `s` when every element of `out` is struck out. */
  ghost function Without<T>(s: seq<T>, out: set<T>): seq<T> {
    if s == [] then [] else
      Without(s[..|s| - 1], out) + if s[|s| - 1] in out then [] else [s[|s| - 1]]
  }

  lemma {:induction false} ElemsWithout<T>(s: seq<T>, out: set<T>)
    ensures Elems(Without(s, out)) == Elems(s) - out
  {
    if s != [] {
      var front, last := s[..|s| - 1], s[|s| - 1];
      ElemsWithout(front, out);
      assert s == front + [last];
      assert Elems(Without(front, out) + [last]) == Elems(Without(front, out)) + {last};
      assert Elems(s) == Elems(front) + {last};
    }
  }

  lemma WithoutNext<T>(s: seq<T>, out: set<T>, n: nat)
    requires n < |s|
    ensures Without(s[..n + 1], out) == Without(s[..n], out) + if s[n] in out then [] else [s[n]]
  {
    assert s[..n + 1][..n] == s[..n];
  }

  lemma {:induction false} WithoutPrefix<T>(s: seq<T>, out: set<T>, m: nat, n: nat)
    requires m <= n <= |s|
    ensures Without(s[..m], out) <= Without(s[..n], out)
    decreases n
  {
    if m < n {
      WithoutPrefix(s, out, m, n - 1);
      WithoutNext(s, out, n - 1);
    }
  }

  lemma ElemsNext<T>(s: seq<T>, n: nat)
    requires n < |s|
    ensures Elems(s[..n + 1]) == Elems(s[..n]) + {s[n]}
  {
    assert s[..n + 1] == s[..n] + [s[n]];
  }

  lemma WholePrefix<T>(s: seq<T>)
    ensures s[..|s|] == s
  {
  }

  lemma NoDupFresh<T>(s: seq<T>, n: nat)
    requires NoDup(s) && n < |s|
    ensures s[n] !in Elems(s[..n])
  {
  }

  lemma {:induction false} WithoutConcat<T>(s: seq<T>, t: seq<T>, out: set<T>)
    ensures Without(s + t, out) == Without(s, out) + Without(t, out)
  {
    if t == [] {
      assert s + t == s;
    } else {
      var front := t[..|t| - 1];
      assert (s + t)[..|s + t| - 1] == s + front;
      WithoutConcat(s, front, out);
    }
  }

  lemma {:induction false} WithoutNone<T>(s: seq<T>, out: set<T>)
    requires Elems(s) !! out
    ensures Without(s, out) == s
  {
    if s != [] {
      assert s == s[..|s| - 1] + [s[|s| - 1]] && s[|s| - 1] in Elems(s);
      assert Elems(s[..|s| - 1]) <= Elems(s);
      WithoutNone(s[..|s| - 1], out);
    }
  }

  lemma {:induction false} WithoutAll<T>(s: seq<T>, out: set<T>)
    requires Elems(s) <= out
    ensures Without(s, out) == []
  {
    if s != [] {
      assert s[|s| - 1] in Elems(s);
      assert Elems(s[..|s| - 1]) <= Elems(s);
      WithoutAll(s[..|s| - 1], out);
    }
  }
}
