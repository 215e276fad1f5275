/** What a Merkle root says about the leaves, with the side marks that go into every combination. */
module MerkleBinding {
  import opened Merkle

  /** A digest: the bit that marks its side when it is combined, and the other bits. */
  datatype Digest<R> = Digest(mark: bool, rest: R) {
    function Left(): Digest<R> { this.(mark := false) }
    function Right(): Digest<R> { this.(mark := true) }
  }

  function Combine<R>(hash: (Digest<R>, Digest<R>) -> Digest<R>): (Digest<R>, Digest<R>) -> Digest<R> {
    (l: Digest<R>, r: Digest<R>) => hash(l.Left(), r.Right())
  }

  /** The left digest goes in with its mark cleared, the right one with its mark set, and both with the rest as it was. */
  lemma Sides<R>(hash: (Digest<R>, Digest<R>) -> Digest<R>, l: Digest<R>, r: Digest<R>)
    ensures Combine(hash)(l, r) == hash(Digest(false, l.rest), Digest(true, r.rest))
  {
    assert l.Left() == Digest(false, l.rest) && r.Right() == Digest(true, r.rest);
  }

  /** No two pairs have hashes that agree outside the mark. */
  ghost predicate CollisionFree<R(!new)>(hash: (Digest<R>, Digest<R>) -> Digest<R>) {
    forall a, b, c, d :: hash(a, b).rest == hash(c, d).rest ==> a == c && b == d
  }

  /** The lists agree up to marks. */
  ghost predicate SameRest<R>(s: seq<Digest<R>>, t: seq<Digest<R>>) {
    |s| == |t| && forall i :: 0 <= i < |s| ==> s[i].rest == t[i].rest
  }

  lemma LevelBinds<R(!new)>(hash: (Digest<R>, Digest<R>) -> Digest<R>, s: seq<Digest<R>>, t: seq<Digest<R>>)
    requires CollisionFree(hash) && |s| == |t| && SameRest(Level(Combine(hash), s), Level(Combine(hash), t))
    ensures SameRest(s, t)
  {
    var h := Combine(hash);
    forall i | 0 <= i < |s|
      ensures s[i].rest == t[i].rest
    {
      var k := i / 2;
      var j := if 2 * k + 1 < |s| then 2 * k + 1 else 2 * k;
      assert Level(h, s)[k] == hash(s[2 * k].Left(), s[j].Right());
      assert Level(h, t)[k] == hash(t[2 * k].Left(), t[j].Right());
      assert s[2 * k].Left() == t[2 * k].Left() && s[j].Right() == t[j].Right();
      assert i == 2 * k || i == j;
    }
  }

  lemma LevelIgnoresMarks<R>(hash: (Digest<R>, Digest<R>) -> Digest<R>, s: seq<Digest<R>>, t: seq<Digest<R>>)
    requires SameRest(s, t)
    ensures Level(Combine(hash), s) == Level(Combine(hash), t)
  {
    forall k | 0 <= k < (|s| + 1) / 2
      ensures Level(Combine(hash), s)[k] == Level(Combine(hash), t)[k]
    {
      var j := if 2 * k + 1 < |s| then 2 * k + 1 else 2 * k;
      assert s[2 * k].Left() == t[2 * k].Left() && s[j].Right() == t[j].Right();
    }
  }

  lemma {:induction false} RootBinds<R(!new)>(hash: (Digest<R>, Digest<R>) -> Digest<R>, s: seq<Digest<R>>, t: seq<Digest<R>>)
    requires CollisionFree(hash) && |s| == |t| > 0 && Root(Combine(hash), s).rest == Root(Combine(hash), t).rest
    ensures SameRest(s, t)
    decreases |s|
  {
    if |s| > 1 {
      RootBinds(hash, Level(Combine(hash), s), Level(Combine(hash), t));
      LevelBinds(hash, s, t);
    }
  }

  /** For lists of the same length, at least two: the roots agree exactly when the lists agree up to marks. */
  lemma SameLengthRootsAgree<R(!new)>(hash: (Digest<R>, Digest<R>) -> Digest<R>, s: seq<Digest<R>>, t: seq<Digest<R>>)
    requires CollisionFree(hash) && |s| == |t| > 1
    ensures Root(Combine(hash), s) == Root(Combine(hash), t) <==> SameRest(s, t)
  {
    if SameRest(s, t) {
      LevelIgnoresMarks(hash, s, t);
    }
    if Root(Combine(hash), s) == Root(Combine(hash), t) {
      RootBinds(hash, s, t);
    }
  }

  /** How many levels lie above a list of `n` nodes. */
  ghost function Depth(n: nat): nat
    requires n > 0
  {
    if n == 1 then 0 else 1 + Depth((n + 1) / 2)
  }

  /**
   * The leaf that a path of left and right turns from the root leads to, in
   * the tree whose levels are padded by repeating their last node.
   */
  ghost function Pick(n: nat, path: seq<bool>): (i: nat)
    requires n > 0 && |path| == Depth(n)
    ensures i < n
    decreases n
  {
    if n == 1 then 0 else
      var up, right := Pick((n + 1) / 2, path[..|path| - 1]), path[|path| - 1];
      if right && 2 * up + 1 < n then 2 * up + 1 else 2 * up
  }

  /** The padded trees have the same leaves, up to marks. */
  ghost predicate SamePadded<R>(s: seq<Digest<R>>, t: seq<Digest<R>>)
    requires s != [] && t != [] && Depth(|s|) == Depth(|t|)
  {
    forall path: seq<bool> :: |path| == Depth(|s|) ==> SameLeaf(s, t, path)
  }

  ghost predicate SameLeaf<R>(s: seq<Digest<R>>, t: seq<Digest<R>>, path: seq<bool>)
    requires s != [] && t != [] && |path| == Depth(|s|) == Depth(|t|)
  {
    s[Pick(|s|, path)].rest == t[Pick(|t|, path)].rest
  }

  /** A node above the leaves is the hash of the two leaves that its path goes on to. */
  lemma NodeOfLeaves<R>(hash: (Digest<R>, Digest<R>) -> Digest<R>, s: seq<Digest<R>>, path: seq<bool>)
    requires |s| > 1 && |path| + 1 == Depth(|s|)
    ensures var up := Level(Combine(hash), s);
            up[Pick(|up|, path)] == hash(s[Pick(|s|, path + [false])].Left(), s[Pick(|s|, path + [true])].Right())
  {
    assert (path + [false])[..|path|] == path && (path + [true])[..|path|] == path;
  }

  lemma SameNode<R(!new)>(hash: (Digest<R>, Digest<R>) -> Digest<R>, s: seq<Digest<R>>, t: seq<Digest<R>>, path: seq<bool>)
    requires CollisionFree(hash) && |s| > 1 && |t| > 1 && |path| + 1 == Depth(|s|) == Depth(|t|)
    ensures SameLeaf(Level(Combine(hash), s), Level(Combine(hash), t), path) <==>
            SameLeaf(s, t, path + [false]) && SameLeaf(s, t, path + [true])
  {
    NodeOfLeaves(hash, s, path);
    NodeOfLeaves(hash, t, path);
    var a, b := s[Pick(|s|, path + [false])], s[Pick(|s|, path + [true])];
    var c, d := t[Pick(|t|, path + [false])], t[Pick(|t|, path + [true])];
    SameHash(hash, a.Left(), b.Right(), c.Left(), d.Right());
    hide Level, Pick, Combine, CollisionFree;
  }

  lemma SameHash<R(!new)>(hash: (Digest<R>, Digest<R>) -> Digest<R>, a: Digest<R>, b: Digest<R>, c: Digest<R>, d: Digest<R>)
    requires CollisionFree(hash)
    ensures hash(a, b).rest == hash(c, d).rest <==> a == c && b == d
  {
  }

  lemma LeafBelow<R(!new)>(hash: (Digest<R>, Digest<R>) -> Digest<R>, s: seq<Digest<R>>, t: seq<Digest<R>>, path: seq<bool>)
    requires CollisionFree(hash) && |s| > 1 && |t| > 1 && |path| == Depth(|s|) == Depth(|t|)
    requires SamePadded(Level(Combine(hash), s), Level(Combine(hash), t))
    ensures SameLeaf(s, t, path)
  {
    hide Level, SameLeaf, CollisionFree, Pick, Combine;
    var front, last := path[..|path| - 1], path[|path| - 1];
    assert SameLeaf(Level(Combine(hash), s), Level(Combine(hash), t), front);
    SameNode(hash, s, t, front);
    if last {
      assert path == front + [true];
    } else {
      assert path == front + [false];
    }
  }

  lemma LevelSamePadded<R(!new)>(hash: (Digest<R>, Digest<R>) -> Digest<R>, s: seq<Digest<R>>, t: seq<Digest<R>>)
    requires CollisionFree(hash) && |s| > 1 && |t| > 1 && Depth(|s|) == Depth(|t|)
    ensures SamePadded(Level(Combine(hash), s), Level(Combine(hash), t)) <==> SamePadded(s, t)
  {
    var us, ut := Level(Combine(hash), s), Level(Combine(hash), t);
    assert Depth(|us|) == Depth(|ut|) == Depth(|s|) - 1;
    hide Level, SameLeaf, CollisionFree, Pick, Combine, Depth;
    if SamePadded(us, ut) {
      forall path: seq<bool> | |path| == Depth(|s|)
        ensures SameLeaf(s, t, path)
      {
        LeafBelow(hash, s, t, path);
      }
    }
    if SamePadded(s, t) {
      forall path: seq<bool> | |path| == Depth(|us|)
        ensures SameLeaf(us, ut, path)
      {
        SameNode(hash, s, t, path);
      }
    }
  }

  /** For lists whose trees are of one depth, roots agree exactly when the padded trees do. */
  lemma {:induction false} PaddedRootsAgree<R(!new)>(hash: (Digest<R>, Digest<R>) -> Digest<R>, s: seq<Digest<R>>, t: seq<Digest<R>>)
    requires CollisionFree(hash) && s != [] && t != [] && Depth(|s|) == Depth(|t|)
    ensures Root(Combine(hash), s).rest == Root(Combine(hash), t).rest <==> SamePadded(s, t)
    decreases |s|
  {
    if |s| == 1 {
      assert SameLeaf(s, t, []) <==> s[0].rest == t[0].rest;
      assert forall path: seq<bool> :: |path| == 0 ==> path == [];
    } else {
      PaddedRootsAgree(hash, Level(Combine(hash), s), Level(Combine(hash), t));
      LevelSamePadded(hash, s, t);
    }
  }

  /** The list `k` levels up. */
  ghost function Up<D>(h: (D, D) -> D, s: seq<D>, k: nat): (r: seq<D>)
    requires s != [] && k <= Depth(|s|)
    ensures r != [] && Depth(|r|) == Depth(|s|) - k && Root(h, r) == Root(h, s)
    decreases k
  {
    if k == 0 then s else Up(h, Level(h, s), k - 1)
  }

  /** A root of two leaves or more is a hash. */
  lemma {:induction false} RootIsHash<R>(hash: (Digest<R>, Digest<R>) -> Digest<R>, s: seq<Digest<R>>)
    returns (a: Digest<R>, b: Digest<R>)
    requires |s| > 1
    ensures Root(Combine(hash), s) == hash(a, b)
    decreases |s|
  {
    var up := Level(Combine(hash), s);
    if |s| == 2 {
      a, b := s[0].Left(), s[1].Right();
      assert up[0] == hash(a, b);
    } else {
      a, b := RootIsHash(hash, up);
    }
  }

  /**
   * For any two lists: the roots agree, outside the mark, exactly when the
   * tree of the longer list, cut down to the depth of the other, agrees with
   * it leaf by leaf. With two leaves or more in each, the roots are then equal.
   */
  lemma RootsAgree<R(!new)>(hash: (Digest<R>, Digest<R>) -> Digest<R>, s: seq<Digest<R>>, t: seq<Digest<R>>)
    requires CollisionFree(hash) && s != [] && t != [] && Depth(|s|) >= Depth(|t|)
    ensures Root(Combine(hash), s).rest == Root(Combine(hash), t).rest <==>
            SamePadded(Up(Combine(hash), s, Depth(|s|) - Depth(|t|)), t)
    ensures |s| > 1 && |t| > 1 ==>
            (Root(Combine(hash), s) == Root(Combine(hash), t) <==>
             SamePadded(Up(Combine(hash), s, Depth(|s|) - Depth(|t|)), t))
  {
    hide Root, Up, SamePadded, CollisionFree, Combine, Depth;
    PaddedRootsAgree(hash, Up(Combine(hash), s, Depth(|s|) - Depth(|t|)), t);
    if |s| > 1 && |t| > 1 {
      HashedRoots(hash, s, t);
    }
  }

  lemma HashedRoots<R(!new)>(hash: (Digest<R>, Digest<R>) -> Digest<R>, s: seq<Digest<R>>, t: seq<Digest<R>>)
    requires CollisionFree(hash) && |s| > 1 && |t| > 1
    ensures Root(Combine(hash), s) == Root(Combine(hash), t) <==> Root(Combine(hash), s).rest == Root(Combine(hash), t).rest
  {
    hide Root, CollisionFree, Combine;
    var a, b := RootIsHash(hash, s);
    var c, d := RootIsHash(hash, t);
    SameHash(hash, a, b, c, d);
  }

  /** So lists of different lengths can have one root: repeating the last leaf of an odd list does not change it. */
  lemma RepeatedLeafSameRoot<D>(h: (D, D) -> D, s: seq<D>)
    requires |s| > 1 && |s| % 2 == 1
    ensures Root(h, s + [s[|s| - 1]]) == Root(h, s)
  {
    RepeatedLeafSameLevel(h, s);
    hide Level;
  }

  lemma RepeatedLeafSameLevel<D>(h: (D, D) -> D, s: seq<D>)
    requires |s| % 2 == 1
    ensures Level(h, s + [s[|s| - 1]]) == Level(h, s)
  {
    var t := s + [s[|s| - 1]];
    forall i | 0 <= i < |Level(h, s)|
      ensures Level(h, t)[i] == Level(h, s)[i]
    {
      assert t[2 * i] == s[2 * i];
    }
  }

  /** Nor does repeating the last two leaves of six, if they are the same. */
  lemma RepeatedPairSameRoot<D>(h: (D, D) -> D, a: D, b: D, c: D, d: D, e: D)
    ensures Root(h, [a, b, c, d, e, e, e, e]) == Root(h, [a, b, c, d, e, e])
  {
    assert Level(h, [a, b, c, d, e, e]) == [h(a, b), h(c, d), h(e, e)];
    assert Level(h, [a, b, c, d, e, e, e, e]) == [h(a, b), h(c, d), h(e, e), h(e, e)];
    var up := [h(a, b), h(c, d), h(e, e)];
    RepeatedLeafSameRoot(h, up);
    assert up + [up[2]] == [h(a, b), h(c, d), h(e, e), h(e, e)];
  }
}
