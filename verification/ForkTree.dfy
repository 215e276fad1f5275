/** The blocks of a fork database as a tree on its root, and the order in which heads are preferred. */
module ForkTree {
  type Id = nat

  datatype Node = Node(id: Id, previous: Id, num: nat, lib: nat, valid: bool)

  type Index = map<Id, Node>

  predicate Known(index: Index, root: Node, id: Id) {
    id == root.id || id in index
  }

  function Find(index: Index, root: Node, id: Id): Node
    requires Known(index, root, id)
  {
    if id == root.id then root else index[id]
  }

  /** Every block is linked to the root or to another block, with the next number. */
  ghost predicate Tree(index: Index, root: Node) {
    root.id !in index && forall i :: i in index ==> LinkedAt(index, root, i)
  }

  ghost predicate LinkedAt(index: Index, root: Node, i: Id)
    requires i in index
  {
    var n := index[i];
    && n.id == i && n.num > root.num
    && Known(index, root, n.previous) && n.num == Find(index, root, n.previous).num + 1
  }

  /** Links inside the index lead to smaller numbers; this survives the removal of any block. */
  ghost predicate Descending(index: Index) {
    forall i :: i in index ==> DescendsAt(index, i)
  }

  ghost predicate DescendsAt(index: Index, i: Id)
    requires i in index
  {
    index[i].id == i && (index[i].previous in index ==> index[index[i].previous].num < index[i].num)
  }

  lemma TreeDescends(index: Index, root: Node)
    requires Tree(index, root)
    ensures Descending(index)
  {
    forall i | i in index
      ensures DescendsAt(index, i)
    {
      assert LinkedAt(index, root, i);
    }
  }

  lemma DescendingErase(index: Index, gone: set<Id>)
    requires Descending(index)
    ensures Descending(index - gone)
  {
    forall i | i in index - gone
      ensures DescendsAt(index - gone, i)
    {
      assert DescendsAt(index, i);
    }
  }

  ghost function Height(index: Index, i: Id): nat {
    if i in index then index[i].num + 1 else 0
  }

  /** `a` is `i`, or is reached from `i` by links of blocks in the index. */
  ghost predicate Under(index: Index, i: Id, a: Id)
    requires Descending(index)
    decreases Height(index, i)
  {
    i == a || (i in index && (assert DescendsAt(index, i); Under(index, index[i].previous, a)))
  }

  ghost function Descendants(index: Index, a: Id): set<Id>
    requires Descending(index)
  {
    set i | i in index && Under(index, i, a)
  }

  lemma {:induction false} UnderTransitive(index: Index, i: Id, j: Id, k: Id)
    requires Descending(index) && Under(index, i, j) && Under(index, j, k)
    ensures Under(index, i, k)
    decreases Height(index, i)
  {
    if i != j {
      assert DescendsAt(index, i);
      UnderTransitive(index, index[i].previous, j, k);
    }
  }

  /** Erasing a whole branch leaves the ancestry of every other block as it was. */
  lemma {:induction false} UnderErase(index: Index, a: Id, i: Id, b: Id)
    requires Descending(index) && !Under(index, i, a)
    ensures Descending(index - Descendants(index, a))
    ensures Under(index - Descendants(index, a), i, b) <==> Under(index, i, b)
    decreases Height(index, i)
  {
    DescendingErase(index, Descendants(index, a));
    if i in index {
      assert DescendsAt(index, i);
      UnderErase(index, a, index[i].previous, b);
    }
  }

  /** Without block `b`, exactly the blocks that build on `b` lose their way to the root. */
  lemma {:induction false} CutAt(index: Index, root: Node, b: Id, i: Id)
    requires Tree(index, root) && b in index && Known(index, root, i)
    ensures Descending(index) && Descending(index - {b})
    ensures Under(index - {b}, i, root.id) <==> !Under(index, i, b)
    decreases Height(index, i)
  {
    TreeDescends(index, root);
    DescendingErase(index, {b});
    if i in index && i != b {
      assert LinkedAt(index, root, i) && DescendsAt(index, i) && DescendsAt(index - {b}, i);
      CutAt(index, root, b, index[i].previous);
    }
  }

  /** Higher last irreversible block first, then the longer chain. */
  predicate FirstPreferred(a: Node, b: Node) {
    a.lib > b.lib || (a.lib == b.lib && a.num > b.num)
  }

  /** The order of the index: valid blocks, then preferred ones, then smaller ids. */
  predicate Before(a: Node, b: Node) {
    if a.valid != b.valid then a.valid
    else FirstPreferred(a, b) || (a.lib == b.lib && a.num == b.num && a.id < b.id)
  }

  predicate IsFirst(index: Index, among: set<Id>, c: Id) {
    c in among && c in index && forall i :: i in among && i in index ==> !Before(index[i], index[c])
  }

  lemma {:induction false} FirstExists(index: Index, among: set<Id>) returns (c: Id)
    requires among != {} && among <= index.Keys
    ensures IsFirst(index, among, c)
  {
    var x :| x in among;
    c := x;
    var rest := among - {x};
    while rest != {}
      invariant rest <= among && c in among && forall i :: i in among - rest ==> !Before(index[i], index[c])
      decreases rest
    {
      var y :| y in rest;
      if Before(index[y], index[c]) {
        c := y;
      }
      rest := rest - {y};
    }
  }

  /** The head is valid, and no valid block of the index is preferred over it; the root may be. */
  ghost predicate GoodHead(index: Index, root: Node, head: Id) {
    && Known(index, root, head) && Find(index, root, head).valid
    && forall i :: i in index && index[i].valid ==> !FirstPreferred(index[i], Find(index, root, head))
  }

  /** A branch can be cut off anywhere but at the root. */
  lemma TreeWithoutBranch(index: Index, root: Node, a: Id)
    requires Tree(index, root)
    ensures Descending(index) && Tree(index - Descendants(index, a), root)
  {
    TreeDescends(index, root);
    var left := index - Descendants(index, a);
    forall i | i in left
      ensures LinkedAt(left, root, i)
    {
      assert LinkedAt(index, root, i) && DescendsAt(index, i);
    }
  }

  /** What builds on a block, on that block as the root. */
  lemma TreeAbove(index: Index, root: Node, b: Id)
    requires Tree(index, root) && b in index
    ensures Descending(index) && Tree(Above(index, b), index[b])
  {
    TreeDescends(index, root);
    var above := Above(index, b);
    forall i | i in above
      ensures LinkedAt(above, index[b], i)
    {
      assert LinkedAt(index, root, i) && DescendsAt(index, i);
      UnderNumber(index, root, i, b);
    }
  }

  lemma {:induction false} UnderNumber(index: Index, root: Node, i: Id, b: Id)
    requires Tree(index, root) && Descending(index) && i in index && b in index && i != b && Under(index, i, b)
    ensures index[i].num > index[b].num
    decreases index[i].num
  {
    assert LinkedAt(index, root, i) && DescendsAt(index, i);
    if index[i].previous != b {
      UnderNumber(index, root, index[i].previous, b);
    }
  }

  lemma {:induction false} UnderHeight(index: Index, i: Id, a: Id)
    requires Descending(index) && Under(index, i, a) && i != a
    ensures i in index && Height(index, i) > Height(index, a)
    decreases Height(index, i)
  {
    assert DescendsAt(index, i);
    if index[i].previous != a {
      UnderHeight(index, index[i].previous, a);
    }
  }

  /** Erasing a branch and then a longer one that contains it is erasing the longer one. */
  lemma EraseTwice(index: Index, a: Id, b: Id)
    requires Descending(index) && Under(index, a, b)
    ensures Descending(index - Descendants(index, a))
    ensures var left := index - Descendants(index, a);
            left - Descendants(left, b) == index - Descendants(index, b)
  {
    DescendingErase(index, Descendants(index, a));
    var left := index - Descendants(index, a);
    forall i | i in index
      ensures i in Descendants(index, a) ==> i in Descendants(index, b)
      ensures i !in Descendants(index, a) ==> (i in Descendants(left, b) <==> i in Descendants(index, b))
    {
      if i in Descendants(index, a) {
        UnderTransitive(index, i, a, b);
      } else {
        UnderErase(index, a, i, b);
      }
    }
  }

  /** The blocks that build on `b`, without `b`. */
  ghost function Above(index: Index, b: Id): Index
    requires Descending(index)
  {
    map i | i in index && i != b && Under(index, i, b) :: index[i]
  }

  lemma CutLeavesAbove(index: Index, root: Node, b: Id)
    requires Tree(index, root) && b in index
    ensures Descending(index) && Descending(index - {b})
    ensures (index - {b}) - Descendants(index - {b}, root.id) == Above(index, b)
  {
    TreeDescends(index, root);
    DescendingErase(index, {b});
    forall i | i in index
      ensures Under(index - {b}, i, root.id) <==> !Under(index, i, b)
    {
      CutAt(index, root, b, i);
    }
  }
}
