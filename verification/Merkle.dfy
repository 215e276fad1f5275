/** Merkle roots: computed from the whole list, and maintained while the list grows. */
module Merkle {
  import opened Words

  /** One level up: neighbours are combined, a last odd node with itself. */
  ghost function Level<D>(h: (D, D) -> D, s: seq<D>): (r: seq<D>)
    ensures |r| == (|s| + 1) / 2
  {
    seq((|s| + 1) / 2, i requires 0 <= i < (|s| + 1) / 2 => h(s[2 * i], if 2 * i + 1 < |s| then s[2 * i + 1] else s[2 * i]))
  }

  ghost function Root<D>(h: (D, D) -> D, s: seq<D>): D
    requires s != []
    decreases |s|
  {
    if |s| == 1 then s[0] else Root(h, Level(h, s))
  }

  /** One level in place: an odd level first repeats its last node, then neighbours are combined from the left. */
  method Halve<D>(h: (D, D) -> D, nodes: seq<D>) returns (ids: seq<D>)
    requires nodes != []
    ensures ids == Level(h, nodes)
  {
    ids := nodes;
    if |ids| % 2 == 1 {
      ids := ids + [ids[|ids| - 1]];
    }
    ghost var padded := ids;
    var i := 0;
    while i < |ids| / 2
      invariant i <= |ids| / 2 && |ids| == |padded|
      invariant forall k :: 0 <= k < i ==> ids[k] == h(padded[2 * k], padded[2 * k + 1])
      invariant forall k :: i <= k < |ids| ==> ids[k] == padded[k]
    {
      ids := ids[i := h(ids[2 * i], ids[2 * i + 1])];
      i := i + 1;
    }
    ids := ids[..|ids| / 2];
  }

  /** The root of a whole list. */
  method MerkleOf<D>(h: (D, D) -> D, zero: D, leaves: seq<D>) returns (root: D)
    ensures root == if leaves == [] then zero else Root(h, leaves)
  {
    if leaves == [] { return zero; }
    var ids := leaves;
    while |ids| > 1
      invariant ids != [] && Root(h, ids) == Root(h, leaves)
      decreases |ids|
    {
      ids := Halve(h, ids);
    }
    return ids[0];
  }

  /** The complete pairs of a level, and the nodes that the next append can still reach: one per binary digit. */
  ghost function Pairs<D>(h: (D, D) -> D, s: seq<D>): (r: seq<D>)
    ensures |r| == |s| / 2
  {
    seq(|s| / 2, i requires 0 <= i < |s| / 2 => h(s[2 * i], s[2 * i + 1]))
  }

  ghost function Frontier<D>(h: (D, D) -> D, s: seq<D>): seq<D>
    decreases |s|
  {
    if s == [] then []
    else if |s| % 2 == 1 then [s[|s| - 1]] + Frontier(h, Pairs(h, s))
    else Frontier(h, Pairs(h, s))
  }

  lemma LevelOfEven<D>(h: (D, D) -> D, s: seq<D>, top: D)
    requires |s| % 2 == 0
    ensures Level(h, s + [top]) == Pairs(h, s) + [h(top, top)]
    ensures Pairs(h, s + [top]) == Pairs(h, s)
  {
  }

  lemma LevelOfOdd<D>(h: (D, D) -> D, s: seq<D>, top: D)
    requires |s| % 2 == 1
    ensures Level(h, s + [top]) == Pairs(h, s) + [h(s[|s| - 1], top)]
    ensures Pairs(h, s + [top]) == Pairs(h, s) + [h(s[|s| - 1], top)]
  {
  }

  /**
   * An append climbs from the new leaf to the root. At each level `full` are
   * the complete nodes left of the path, `top` is the node on the path,
   * `rest` are the stored nodes not used yet and `updated` the ones kept for
   * the new tree, whose leaves are `goal`.
   */
  ghost predicate Climbing<D>(h: (D, D) -> D, goal: seq<D>, rest: seq<D>, full: seq<D>, top: D, updated: seq<D>, partial: bool)
    requires goal != []
  {
    && Frontier(h, full) <= rest
    && Root(h, full + [top]) == Root(h, goal)
    && (!partial ==> updated == [] && Frontier(h, full + [top]) == Frontier(h, goal))
    && (partial ==> updated + Frontier(h, full) == Frontier(h, goal))
  }

  lemma ClimbLeft<D>(h: (D, D) -> D, goal: seq<D>, rest: seq<D>, full: seq<D>, top: D, updated: seq<D>, partial: bool)
    requires goal != [] && Climbing(h, goal, rest, full, top, updated, partial) && |full| % 2 == 0 && full != []
    ensures Climbing(h, goal, rest, Pairs(h, full), h(top, top), if partial then updated else updated + [top], true)
  {
    hide Level, Pairs;
    LevelOfEven(h, full, top);
  }

  lemma ClimbRight<D>(h: (D, D) -> D, goal: seq<D>, rest: seq<D>, full: seq<D>, top: D, updated: seq<D>, partial: bool)
    requires goal != [] && Climbing(h, goal, rest, full, top, updated, partial) && |full| % 2 == 1
    ensures rest != []
    ensures Climbing(h, goal, rest[1..], Pairs(h, full), h(rest[0], top), if partial then updated + [rest[0]] else updated, partial)
  {
    hide Level, Pairs;
    LevelOfOdd(h, full, top);
    var front := Frontier(h, Pairs(h, full));
    assert Frontier(h, full) == [full[|full| - 1]] + front;
    assert updated + Frontier(h, full) == (updated + [full[|full| - 1]]) + front;
  }

  lemma ClimbStart<D>(h: (D, D) -> D, leaves: seq<D>, digest: D, nodes: seq<D>)
    requires Frontier(h, leaves) <= nodes
    ensures Climbing(h, leaves + [digest], nodes[0..], leaves, digest, [], false)
  {
    assert nodes[0..] == nodes;
  }

  lemma ClimbDone<D>(h: (D, D) -> D, goal: seq<D>, rest: seq<D>, full: seq<D>, top: D, updated: seq<D>, partial: bool)
    requires goal != [] && Climbing(h, goal, rest, full, top, updated, partial) && full == []
    ensures top == Root(h, goal)
    ensures updated + [top] == Frontier(h, goal) || updated + [top] == Frontier(h, goal) + [Root(h, goal)]
  {
    assert full + [top] == [top];
    if !partial {
      assert Pairs(h, [top]) == [];
      assert Frontier(h, [top]) == [top];
    }
  }

  /** The incremental tree: how many leaves it has, and its stored nodes. */
  datatype Tree<D> = Tree(nodeCount: bv64, nodes: seq<D>) {

    /** The stored nodes are the frontier, followed by the root when that is not a frontier node itself. */
    ghost predicate Represents(h: (D, D) -> D, leaves: seq<D>) {
      && Value(nodeCount) == |leaves|
      && (leaves == [] ==> nodes == [])
      && (leaves != [] ==> nodes != [] && nodes[|nodes| - 1] == Root(h, leaves))
      && (nodes == Frontier(h, leaves) || nodes == Frontier(h, leaves) + [Root(h, leaves)])
    }

    method GetRoot(zero: D, ghost h: (D, D) -> D, ghost leaves: seq<D>) returns (root: D)
      requires Represents(h, leaves)
      ensures root == if leaves == [] then zero else Root(h, leaves)
    {
      ValueHalf(nodeCount);
      return if nodeCount > 0 then nodes[|nodes| - 1] else zero;
    }
  }

  /** The tree as the object that grows in place; a `Tree` is a copy of it. */
  class Incremental<D> {
    var nodeCount: bv64
    var nodes: seq<D>

    constructor (t: Tree<D>)
      ensures Contents() == t
    {
      nodeCount, nodes := t.nodeCount, t.nodes;
    }

    function Contents(): Tree<D>
      reads this
    {
      Tree(nodeCount, nodes)
    }

    method Append(h: (D, D) -> D, digest: D, ghost leaves: seq<D>) returns (root: D)
      requires Contents().Represents(h, leaves) && |leaves| < Value(LAST_WORD)
      modifies this
      ensures Contents().Represents(h, leaves + [digest])
      ensures root == Root(h, leaves + [digest])
    {
      hide Climbing, Frontier, Level, Root, Pairs, MaxDepth, Value, Bits, Even, Half, Next;
      var partial := false;
      var depth := MaxDepth(Next(nodeCount)) - 1;
      DepthIsBitLength(nodeCount);
      var index := nodeCount;
      var top := digest;
      var used := 0;
      var updated := [];
      ghost var goal, full := leaves + [digest], leaves;
      ClimbStart(h, leaves, digest, nodes);
      while depth > 0
        invariant nodes == old(nodes) && nodeCount == old(nodeCount)
        invariant depth == Bits(index) && Value(index) == |full|
        invariant used <= |nodes| && Climbing(h, goal, nodes[used..], full, top, updated, partial)
      {
        ValueHalf(index);
        BitsHalf(index);
        if Even(index) {
          ClimbLeft(h, goal, nodes[used..], full, top, updated, partial);
          if !partial {
            updated := updated + [top];
          }
          top := h(top, top);
          partial := true;
        } else {
          ClimbRight(h, goal, nodes[used..], full, top, updated, partial);
          assert nodes[used..][1..] == nodes[used + 1..];
          var left := nodes[used];
          used := used + 1;
          if partial {
            updated := updated + [left];
          }
          top := h(left, top);
        }
        full := Pairs(h, full);
        depth := depth - 1;
        index := Half(index);
      }
      BitsHalf(index);
      ValueHalf(index);
      ClimbDone(h, goal, nodes[used..], full, top, updated, partial);
      ValueNext(nodeCount);
      nodes := updated + [top];
      nodeCount := Next(nodeCount);
      return nodes[|nodes| - 1];
    }
  }
}
