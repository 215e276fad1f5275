/** Forks of one chain, each corrupted at its own block and re-linked and re-signed from there on. */
module CorruptForks {
  import opened Words
  import opened Merkle
  import opened MerkleBinding

  /** A 256-bit action root, as four words. */
  datatype ActionRoot = ActionRoot(w0: bv64, w1: bv64, w2: bv64, w3: bv64) {
    function Flipped(): ActionRoot { this.(w0 := w0 ^ 1) }
  }

  lemma FlipChanges(a: ActionRoot)
    ensures a.Flipped() != a && a.Flipped().Flipped() == a
  {
    assert a.w0 ^ 1 != a.w0 && (a.w0 ^ 1) ^ 1 == a.w0;
  }

  lemma OneBitFlips(a: ActionRoot)
    ensures a.Flipped().w0 ^ a.w0 == 1
    ensures a.Flipped().w1 == a.w1 && a.Flipped().w2 == a.w2 && a.Flipped().w3 == a.w3
  {
    LowBit(a.w0);
  }

  lemma LowBit(w: bv64)
    ensures (w ^ 1) ^ w == 1
  {
  }

  /** The header fields that the corruption touches, and the other ones. */
  datatype Header<D> = Header(previous: D, actionRoot: ActionRoot, other: nat)

  /** A signature, as what was signed: the header, the root over the blocks before it, the schedule. */
  datatype Signature<D> = Genuine(author: nat) | Signed(header: Header<D>, root: D, schedule: nat)

  datatype Block<D> = Block(header: Header<D>, signature: Signature<D>)

  /** Block ids and node hashes, and what the remote node has: its past, its new blocks and its schedules. */
  datatype Remote<!D(!new)> = Remote(id: Header<D> -> D, h: (D, D) -> D, zero: D, past: seq<D>, blocks: seq<Block<D>>, schedules: seq<nat>) {
    ghost predicate Valid() {
      && past != [] && |schedules| == |blocks|
      && (forall a, b :: id(a) == id(b) ==> a == b)
      && (forall k: nat :: k < |blocks| ==> LinkedAt(k))
    }

    ghost predicate LinkedAt(k: nat)
      requires k < |blocks| && past != []
    {
      blocks[k].header.previous == if k == 0 then past[|past| - 1] else id(blocks[k - 1].header)
    }

    /** The ids a chain of blocks adds to the past. */
    ghost function History(bs: seq<Block<D>>): (ids: seq<D>)
      ensures |ids| == |past| + |bs|
    {
      past + seq(|bs|, i requires 0 <= i < |bs| => id(bs[i].header))
    }

    /** The first `k` blocks of fork `j`. */
    ghost function Fork(j: nat, k: nat): (bs: seq<Block<D>>)
      requires k <= |blocks| && |schedules| == |blocks| && past != []
      ensures |bs| == k
    {
      if k == 0 then [] else
        var before := Fork(j, k - 1);
        before + [if k - 1 < j then blocks[k - 1] else Resigned(before, Edited(j, before))]
    }

    /** The header of the next block of fork `j`: flipped at index `j`, linked to the fork behind it. */
    ghost function Edited(j: nat, before: seq<Block<D>>): Header<D>
      requires |before| < |blocks| && j <= |before|
    {
      var header := blocks[|before|].header;
      if j == |before| then header.(actionRoot := header.actionRoot.Flipped())
      else header.(previous := id(before[|before| - 1].header))
    }

    ghost function Resigned(before: seq<Block<D>>, header: Header<D>): Block<D>
      requires |before| < |schedules| && past != []
    {
      Block(header, Signed(header, Root(h, History(before)), schedules[|before|]))
    }
  }

  datatype Tracker<D> = Tracker(blocks: seq<Block<D>>, merkle: Tree<D>)

  /** The state of fork `j` when the first `k` blocks of the remote chain have been handed out. */
  ghost predicate Tracks<D(!new)>(r: Remote<D>, t: Tracker<D>, j: nat, k: nat)
    requires r.Valid() && k <= |r.blocks|
  {
    t.blocks == r.Fork(j, k) && (j < k ==> t.merkle.Represents(r.h, r.History(r.Fork(j, k))))
  }

  /** One block of one fork. */
  method Extend<D(!new)>(r: Remote<D>, root: Tree<D>, t: Tracker<D>, j: nat, i: nat) returns (t': Tracker<D>)
    requires r.Valid() && i < |r.blocks| && Tracks(r, t, j, i)
    requires root.Represents(r.h, r.History(r.blocks[..i])) && |r.past| + |r.blocks| < Value(LAST_WORD)
    ensures Tracks(r, t', j, i + 1)
  {
    hide Root, Tree.Represents, Value, ActionRoot.Flipped;
    var b := r.blocks[i];
    if j <= i {
      var copy, merkle := b, t.merkle;
      if j == i {
        UncorruptedPrefix(r, j, i);
        merkle := root;
        copy := copy.(header := copy.header.(actionRoot := copy.header.actionRoot.Flipped()));
      } else {
        copy := copy.(header := copy.header.(previous := r.id(t.blocks[|t.blocks| - 1].header)));
      }
      ghost var ids := r.History(t.blocks);
      var signedRoot := merkle.GetRoot(r.zero, r.h, ids);
      copy := copy.(signature := Signed(copy.header, signedRoot, r.schedules[i]));
      var growing := new Incremental(merkle);
      var _ := growing.Append(r.h, r.id(copy.header), ids);
      t' := Tracker(t.blocks + [copy], growing.Contents());
      assert r.History(t'.blocks) == ids + [r.id(copy.header)];
    } else {
      t' := t.(blocks := t.blocks + [b]);
    }
  }

  lemma {:induction false} UncorruptedPrefix<D(!new)>(r: Remote<D>, j: nat, k: nat)
    requires r.Valid() && k <= |r.blocks| && k <= j
    ensures r.Fork(j, k) == r.blocks[..k]
  {
    if k > 0 {
      UncorruptedPrefix(r, j, k - 1);
      assert r.blocks[..k] == r.blocks[..k - 1] + [r.blocks[k - 1]];
    }
  }

  lemma NoBlocks<D(!new)>(r: Remote<D>, j: nat)
    requires r.Valid()
    ensures r.Fork(j, 0) == []
  {
  }

  /** The nested loops: block by block, each block into every fork. `roots` are the block roots of the remote heads. */
  method BuildForks<D(!new)>(r: Remote<D>, roots: seq<Tree<D>>) returns (forks: seq<Tracker<D>>)
    requires r.Valid() && |roots| == |r.blocks| && |r.past| + |r.blocks| < Value(LAST_WORD)
    requires forall i :: 0 <= i < |roots| ==> roots[i].Represents(r.h, r.History(r.blocks[..i]))
    ensures |forks| == |r.blocks|
    ensures forall j :: 0 <= j < |forks| ==> forks[j].blocks == r.Fork(j, |r.blocks|)
  {
    hide Root, Tree.Represents, Value, Remote.Fork, Remote.History;
    var n := |r.blocks|;
    var trackers := new Tracker<D>[n](_ => Tracker([], Tree(0, [])));
    forall j: nat ensures r.Fork(j, 0) == [] { NoBlocks(r, j); }
    var i := 0;
    while i < n
      invariant i <= n
      invariant forall j :: 0 <= j < n ==> Tracks(r, trackers[j], j, i)
    {
      var j := 0;
      while j < n
        invariant j <= n
        invariant forall l :: 0 <= l < n ==> Tracks(r, trackers[l], l, if l < j then i + 1 else i)
      {
        var t := Extend(r, roots[i], trackers[j], j, i);
        trackers[j] := t;
        j := j + 1;
      }
      i := i + 1;
    }
    forks := trackers[..];
  }

  /** A longer prefix of a fork starts with every shorter one. */
  lemma {:induction false} ForkGrows<D(!new)>(r: Remote<D>, j: nat, m: nat, n: nat)
    requires r.Valid() && m <= n <= |r.blocks|
    ensures r.Fork(j, n)[..m] == r.Fork(j, m)
    decreases n
  {
    if m < n {
      ForkGrows(r, j, m, n - 1);
    } else {
      assert r.Fork(j, n)[..n] == r.Fork(j, n);
    }
  }

  /** Block `k` of fork `j`. */
  lemma ForkBlock<D(!new)>(r: Remote<D>, j: nat, k: nat)
    requires r.Valid() && k < |r.blocks|
    ensures var before := r.Fork(j, k);
            r.Fork(j, |r.blocks|)[k] == if k < j then r.blocks[k] else r.Resigned(before, r.Edited(j, before))
    ensures r.Fork(j, |r.blocks|)[..k] == r.Fork(j, k)
  {
    hide Root;
    ForkGrows(r, j, k + 1, |r.blocks|);
    ForkGrows(r, j, k, |r.blocks|);
    assert r.Fork(j, |r.blocks|)[k] == r.Fork(j, |r.blocks|)[..k + 1][k];
  }

  /** Every fork is a chain on the remote node's past. */
  lemma ForkIsLinked<D(!new)>(r: Remote<D>, j: nat, k: nat)
    requires r.Valid() && k < |r.blocks|
    ensures var bs := r.Fork(j, |r.blocks|);
            bs[k].header.previous == if k == 0 then r.past[|r.past| - 1] else r.id(bs[k - 1].header)
  {
    ForkBlock(r, j, k);
    assert r.LinkedAt(k);
    hide Root, Remote.Fork, Remote.Valid;
    if k > 0 {
      ForkBlock(r, j, k - 1);
      assert r.Fork(j, |r.blocks|)[..k][k - 1] == r.Fork(j, |r.blocks|)[k - 1];
    }
  }

  /** From its corruption on, every block is signed over its own header and exactly its own ancestors. */
  lemma ForkCommitsToHistory<D(!new)>(r: Remote<D>, j: nat, k: nat)
    requires r.Valid() && j <= k < |r.blocks|
    ensures var bs := r.Fork(j, |r.blocks|);
            bs[k].signature == Signed(bs[k].header, Root(r.h, r.History(bs[..k])), r.schedules[k])
  {
    ForkBlock(r, j, k);
  }

  /** Exactly block `j` of fork `j` has a flipped action root; nothing else of any header but the link changes. */
  lemma OnlyOneFlip<D(!new)>(r: Remote<D>, j: nat, k: nat)
    requires r.Valid() && k < |r.blocks|
    ensures var header, original := r.Fork(j, |r.blocks|)[k].header, r.blocks[k].header;
            && header.actionRoot == (if k == j then original.actionRoot.Flipped() else original.actionRoot)
            && (header.actionRoot != original.actionRoot <==> k == j)
            && header.other == original.other
  {
    ForkBlock(r, j, k);
    FlipChanges(r.blocks[k].header.actionRoot);
  }

  /** Two forks agree on exactly the blocks before the earlier corruption, and from there on not even on ids. */
  lemma {:induction false} ForksShareExactly<D(!new)>(r: Remote<D>, i: nat, j: nat, k: nat)
    requires r.Valid() && k < |r.blocks| && i < j
    ensures var a, b := r.Fork(i, |r.blocks|)[k], r.Fork(j, |r.blocks|)[k];
            && (k < i ==> a == b == r.blocks[k])
            && (k >= i ==> r.id(a.header) != r.id(b.header))
  {
    ForkBlock(r, i, k);
    ForkBlock(r, j, k);
    hide Root, Remote.Fork, Remote.Resigned;
    if k == i {
      OnlyOneFlip(r, i, k);
      OnlyOneFlip(r, j, k);
    } else if k > i {
      ForksShareExactly(r, i, j, k - 1);
      ForkIsLinked(r, i, k);
      ForkIsLinked(r, j, k);
    }
  }

  /** The same between a fork and the original chain. */
  lemma {:induction false} ForkLeavesOriginal<D(!new)>(r: Remote<D>, j: nat, k: nat)
    requires r.Valid() && k < |r.blocks|
    ensures r.Fork(j, |r.blocks|)[k] == r.blocks[k] <==> k < j
    ensures k >= j ==> r.id(r.Fork(j, |r.blocks|)[k].header) != r.id(r.blocks[k].header)
  {
    ForkBlock(r, j, k);
    hide Root, Remote.Fork, Remote.Resigned;
    if k == j {
      OnlyOneFlip(r, j, k);
    } else if k > j {
      ForkLeavesOriginal(r, j, k - 1);
      ForkIsLinked(r, j, k);
      assert r.LinkedAt(k);
    }
  }

  /**
   * So behind the earlier corruption two forks sign different roots, as long
   * as hashes do not collide. Block ids carry no side mark: their first byte
   * is the top of the block number.
   */
  lemma ForksSignDifferentRoots<R(!new)>(r: Remote<Digest<R>>, hash: (Digest<R>, Digest<R>) -> Digest<R>, i: nat, j: nat, k: nat)
    requires r.Valid() && r.h == Combine(hash) && CollisionFree(hash) && forall header :: !r.id(header).mark
    requires i < j && i < k < |r.blocks|
    ensures var a, b := r.Fork(i, |r.blocks|), r.Fork(j, |r.blocks|);
            Root(r.h, r.History(a[..k])) != Root(r.h, r.History(b[..k]))
  {
    hide Root, Remote.Fork;
    var a, b := r.Fork(i, |r.blocks|), r.Fork(j, |r.blocks|);
    ForksShareExactly(r, i, j, i);
    var n := |r.past| + i;
    assert r.History(a[..k])[n] == r.id(a[i].header) && r.History(b[..k])[n] == r.id(b[i].header);
    assert !SameRest(r.History(a[..k]), r.History(b[..k]));
    SameLengthRootsAgree(hash, r.History(a[..k]), r.History(b[..k]));
  }
}
