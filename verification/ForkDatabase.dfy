/** The fork database: blocks that may still become part of the chain. */
module ForkDatabase {
  import opened Lists
  import opened ForkTree

  datatype Added = Inserted | Ignored | Duplicate | Unlinkable
  datatype Advanced = Done | Missing | NotValidated | RemovesHead

  class Database {
    var index: Index
    var root: Node
    var head: Id

    constructor (rootState: Node)
      ensures Valid() && index == map[] && root == rootState.(valid := true) && head == rootState.id
    {
      index, root, head := map[], rootState.(valid := true), rootState.id;
    }

    ghost predicate Valid()
      reads this
    {
      Tree(index, root) && Descending(index) && root.valid && GoodHead(index, root, head)
    }

    /** The first block in the order of the index. */
    method Candidate() returns (c: Id)
      requires index != map[]
      ensures IsFirst(index, index.Keys, c)
    {
      ghost var some := FirstExists(index, index.Keys);
      c :| c in index.Keys && IsFirst(index, index.Keys, c);
    }

    /**
     * A block state built on a known block has the next number. Its id, which
     * contains its number, is then not the root's.
     */
    method Add(n: Node, ignoreDuplicate: bool) returns (r: Added)
      requires Valid()
      requires Known(index, root, n.previous) ==> n.num == Find(index, root, n.previous).num + 1 && n.id != root.id
      modifies this`index, this`head
      ensures Valid()
      ensures r.Unlinkable? <==> !Known(index, root, n.previous)
      ensures r.Inserted? <==> Known(old(index), root, n.previous) && n.id !in old(index)
      ensures (r.Ignored? ==> ignoreDuplicate) && (r.Duplicate? ==> !ignoreDuplicate)
      ensures !r.Inserted? ==> index == old(index) && head == old(head)
      ensures r.Inserted? ==> index == old(index)[n.id := n]
      ensures r.Inserted? ==> exists c: Id :: IsFirst(index, index.Keys, c) && head == if index[c].valid then c else old(head)
    {
      hide Tree, Descending, IsFirst, GoodHead;
      if !Known(index, root, n.previous) { return Unlinkable; }
      if n.id in index { return if ignoreDuplicate then Ignored else Duplicate; }
      index := index[n.id := n];
      AddKeepsTree(old(index), root, n);
      TreeDescends(index, root);
      assert n.id in index;
      var c := Candidate();
      AddKeepsHead(old(index), root, head, n, c);
      if index[c].valid {
        head := c;
      }
      return Inserted;
    }

    method MarkValid(h: Node) returns (ok: bool)
      requires Valid()
      modifies this`index, this`head
      ensures Valid()
      ensures ok <==> h.valid || h.id in old(index)
      ensures h.valid || !ok ==> index == old(index) && head == old(head)
      ensures ok && !h.valid ==> index == old(index)[h.id := old(index)[h.id].(valid := true)]
      ensures head != old(head) ==> FirstPreferred(Find(index, root, head), Find(index, root, old(head)))
    {
      hide Tree, Descending, IsFirst, GoodHead;
      if h.valid { return true; }
      if h.id !in index { return false; }
      index := index[h.id := index[h.id].(valid := true)];
      FlagKeepsTree(old(index), root, h.id);
      TreeDescends(index, root);
      assert h.id in index;
      var c := Candidate();
      FlagKeepsHead(old(index), root, head, h.id, c);
      if FirstPreferred(index[c], Find(index, root, head)) {
        head := c;
      }
      return true;
    }

    /** All forks built off a block, with the block itself; refused if that would take the head. */
    method Remove(id: Id) returns (ok: bool)
      requires Descending(index)
      modifies this`index
      ensures ok <==> !Under(old(index), head, id)
      ensures index == if ok then old(index) - Descendants(old(index), id) else old(index)
      ensures old(Valid()) ==> Valid()
    {
      hide Tree, GoodHead, NoDup, Queued, Under, Descending;
      var queue, i := [id], 0;
      QueueStart(index, id);
      while i < |queue|
        invariant index == old(index) && i <= |queue| && Queued(index, id, queue, i) && head !in queue[..i]
        decreases index.Keys - Elems(queue), |queue| - i
      {
        if queue[i] == head {
          QueuedUnder(index, id, queue, i, i);
          return false;
        }
        var kids := Children(queue[i]);
        QueueStep(index, id, queue, i, kids);
        assert queue[..i + 1] == queue[..i] + [queue[i]];
        if kids != [] {
          assert kids[0] in Elems(kids) && kids[0] in index.Keys - Elems(queue);
        } else {
          assert queue + kids == queue;
        }
        queue, i := queue + kids, i + 1;
      }
      QueueDone(index, id, queue);
      ok := true;
      i := 0;
      while i < |queue|
        invariant i <= |queue| && index == old(index) - Elems(queue[..i])
      {
        ElemsNext(queue, i);
        index := index - {queue[i]};
        i := i + 1;
      }
      assert queue[..i] == queue;
      if old(Valid()) {
        RemoveKeepsValid(old(index), root, head, id);
      }
    }

    method RollbackHeadToRoot()
      requires Valid()
      modifies this`index, this`head
      ensures Valid() && head == root.id
      ensures index == map i | i in old(index) :: old(index)[i].(valid := false)
    {
      index := map i | i in index :: index[i].(valid := false);
      head := root.id;
      forall i | i in index
        ensures LinkedAt(index, root, i)
      {
        assert LinkedAt(old(index), root, i);
      }
      TreeDescends(index, root);
    }

    /** The head, unless a block that is not validated yet is preferred over it. */
    method PendingHead() returns (h: Node)
      requires Valid()
      ensures Known(index, root, h.id) && h == Find(index, root, h.id)
      ensures h.valid ==> h.id == head
      ensures !h.valid ==> FirstPreferred(h, Find(index, root, head))
      ensures h.id == head <==> forall i :: i in index && !index[i].valid ==> !FirstPreferred(index[i], Find(index, root, head))
      ensures forall i :: i in index ==> !FirstPreferred(index[i], h)
    {
      var waiting := set i | i in index && !index[i].valid;
      h := Find(index, root, head);
      var first := head;
      if waiting != {} {
        ghost var some := FirstExists(index, waiting);
        first :| first in waiting && IsFirst(index, waiting, first);
      }
      PendingIsBest(index, root, head, waiting, first);
      hide Tree, GoodHead, IsFirst;
      if waiting != {} && FirstPreferred(index[first], h) {
        h := index[first];
      }
    }

    /** The block of a number on the branch that ends in `h`. */
    method SearchOnBranch(h: Id, num: nat) returns (r: seq<Node>)
      requires Descending(index)
      ensures |r| <= 1
      ensures r != [] ==> r[0].id in index && r[0] == index[r[0].id] && r[0].num == num && Under(index, h, r[0].id)
      ensures r == [] ==> forall i :: i in index && index[i].num == num ==> !Under(index, h, i)
    {
      var s := h;
      while s in index
        invariant Under(index, h, s)
        invariant forall i :: i in index && index[i].num == num && Under(index, h, i) ==> Under(index, s, i)
        decreases Height(index, s)
      {
        assert DescendsAt(index, s);
        if index[s].num == num { return [index[s]]; }
        UnderTransitive(index, h, s, index[s].previous);
        s := index[s].previous;
      }
      return [];
    }

    /** The two branches from given blocks down to, and without, their latest common ancestor. */
    method FetchBranchFrom(first: Id, second: Id) returns (ok: bool, a: seq<Node>, b: seq<Node>)
      requires Valid()
      ensures ok <==> Known(index, root, first) && Known(index, root, second)
      ensures ok ==> exists c: Id :: Known(index, root, c) && IsBranch(index, a, first, c) && IsBranch(index, b, second, c)
      ensures ok ==> Apart(a, b)
    {
      hide GoodHead, Tree, Descending;
      a, b := [], [];
      if !Known(index, root, first) || !Known(index, root, second) { return false, a, b; }
      ok := true;
      var x, y := Find(index, root, first), Find(index, root, second);
      CursorStart(index, root, first);
      CursorStart(index, root, second);
      while x.num > y.num
        invariant Cursor(index, root, a, first, x) && Cursor(index, root, b, second, y) && b == []
        invariant a != [] ==> x.num >= y.num
        decreases x.num
      {
        CursorNext(index, root, a, first, x, y);
        a := a + [x];
        x := Find(index, root, x.previous);
      }
      while y.num > x.num
        invariant Cursor(index, root, a, first, x) && Cursor(index, root, b, second, y) && (a == [] || b == [])
        invariant a != [] ==> x.num == y.num
        invariant b != [] ==> y.num >= x.num
        decreases y.num
      {
        CursorNext(index, root, b, second, y, x);
        b := b + [y];
        y := Find(index, root, y.previous);
      }
      if x.id == y.id { return; }
      while x.previous != y.previous
        invariant Cursor(index, root, a, first, x) && Cursor(index, root, b, second, y)
        invariant x.num == y.num && x.id != y.id && Apart(a, b)
        decreases x.num
      {
        BothCursorsNext(index, root, a, first, x, b, second, y);
        a, b := a + [x], b + [y];
        x, y := index[x.previous], index[y.previous];
      }
      BothCursorsNext(index, root, a, first, x, b, second, y);
      a, b := a + [x], b + [y];
    }

    /**
     * The branch of `id` becomes all there is, with `id` as the root. If the
     * head is not on that branch the removal of the rest fails, after `id`
     * itself has been erased.
     */
    method AdvanceRoot(id: Id) returns (r: Advanced)
      requires Valid()
      modifies this`index, this`root
      ensures r.Missing? <==> id !in old(index)
      ensures r.NotValidated? <==> id in old(index) && !old(index)[id].valid
      ensures r.RemovesHead? <==> id in old(index) && old(index)[id].valid && !Under(old(index), head, id)
      ensures r.Missing? || r.NotValidated? ==> index == old(index) && root == old(root)
      ensures r.RemovesHead? ==> root == old(root) && Descending(old(index) - {id})
      ensures r.RemovesHead? ==> exists path: seq<Id>, k: nat :: LeftBehind(old(index), root, id, head, path, k, index)
      ensures r.Done? ==> Valid() && root == old(index)[id] && index == Above(old(index), id)
    {
      hide Tree, Descending, GoodHead, Under, Descendants, Above;
      if id !in index { return Missing; }
      if !index[id].valid { return NotValidated; }
      var path := PathBelow(id);
      var newRoot := index[id];
      index := index - {id};
      ghost var base := index;
      ErasesWay(old(index), root, id, path);
      var k := 0;
      while k < |path|
        invariant k <= |path| && Descending(index) && root == old(root)
        invariant index == if k == 0 then base else base - Descendants(base, path[k - 1])
        invariant k > 0 ==> !Under(base, head, path[k - 1])
      {
        ghost var before := index;
        var ok := Remove(path[k]);
        if !ok || k > 0 {
          NextOnWay(old(index), root, id, path, k, head);
        }
        if !ok {
          assert LeftBehind(old(index), root, id, head, path, k, index);
          return RemovesHead;
        }
        DescendingErase(before, Descendants(before, path[k]));
        k := k + 1;
      }
      root := newRoot;
      NewRootTree(old(index), old(root), id, head);
      return Done;
    }

    /** The ids on the way from a block to the root, the block itself left out. */
    method PathBelow(id: Id) returns (path: seq<Id>)
      requires Valid() && id in index
      ensures IsWay(index, root, id, path)
    {
      path := [index[id].previous];
      assert LinkedAt(index, root, id);
      while path[|path| - 1] in index
        invariant path != [] && path[0] == index[id].previous
        invariant forall k :: 0 <= k < |path| ==> Known(index, root, path[k]) && Height(index, path[k]) < Height(index, id)
        invariant forall k :: 0 < k < |path| ==> OneUp(index, path[k - 1], path[k])
        decreases Height(index, path[|path| - 1])
      {
        var last := path[|path| - 1];
        assert LinkedAt(index, root, last);
        path := path + [index[last].previous];
      }
    }

    /** The blocks that link to a block, in the order of the index by previous block. */
    method Children(parent: Id) returns (kids: seq<Id>)
      ensures IsChildren(index, parent, kids)
    {
      var left := set x | x in index && index[x].previous == parent;
      kids := [];
      while left != {}
        invariant NoDup(kids) && left !! Elems(kids)
        invariant left + Elems(kids) == set x | x in index && index[x].previous == parent
        decreases left
      {
        var x :| x in left;
        NoDupSnoc(kids, x);
        kids, left := kids + [x], left - {x};
      }
    }
  }

  lemma RemoveKeepsValid(index: Index, root: Node, head: Id, id: Id)
    requires Tree(index, root) && Descending(index) && GoodHead(index, root, head) && !Under(index, head, id)
    ensures var left := index - Descendants(index, id);
            Tree(left, root) && Descending(left) && GoodHead(left, root, head)
  {
    TreeWithoutBranch(index, root, id);
    DescendingErase(index, Descendants(index, id));
  }

  lemma PendingIsBest(index: Index, root: Node, head: Id, waiting: set<Id>, first: Id)
    requires Tree(index, root) && GoodHead(index, root, head)
    requires waiting == set i | i in index && !index[i].valid
    requires waiting != {} ==> IsFirst(index, waiting, first)
    ensures Find(index, root, head).id == head && Find(index, root, head).valid
    ensures waiting != {} ==> first in index && index[first].id == first && first != root.id && !index[first].valid
    ensures var h := Find(index, root, head);
            var p := if waiting != {} && FirstPreferred(index[first], h) then index[first] else h;
            forall i :: i in index ==> !FirstPreferred(index[i], p)
  {
    if head in index {
      assert LinkedAt(index, root, head);
    }
    if waiting != {} {
      assert LinkedAt(index, root, first);
    }
    var h := Find(index, root, head);
    var p := if waiting != {} && FirstPreferred(index[first], h) then index[first] else h;
    forall i | i in index
      ensures !FirstPreferred(index[i], p)
    {
      if index[i].valid {
        assert !FirstPreferred(index[i], h);
      } else {
        assert i in waiting && !Before(index[i], index[first]);
      }
    }
  }

  /** Where a branch that starts at `start` stands behind its first `n` blocks. */
  ghost function BranchAt(list: seq<Node>, start: Id, n: nat): Id
    requires n <= |list|
  {
    if n == 0 then start else list[n - 1].previous
  }

  /** Blocks of the index, each linked to the next, from `start` down to the child of `c`. */
  ghost predicate IsBranch(index: Index, list: seq<Node>, start: Id, c: Id) {
    && (forall n :: 0 <= n < |list| ==> list[n].id in index && list[n] == index[list[n].id] && list[n].id == BranchAt(list, start, n))
    && c == BranchAt(list, start, |list|)
  }

  ghost predicate Apart(a: seq<Node>, b: seq<Node>) {
    forall i, j :: 0 <= i < |a| && 0 <= j < |b| ==> a[i].id != b[j].id
  }

  /** A branch read down to the block `x`, not included; all its blocks have larger numbers. */
  ghost predicate Cursor(index: Index, root: Node, list: seq<Node>, start: Id, x: Node) {
    && Known(index, root, x.id) && x == Find(index, root, x.id)
    && IsBranch(index, list, start, x.id)
    && forall n :: 0 <= n < |list| ==> list[n].num > x.num
  }

  lemma CursorStart(index: Index, root: Node, start: Id)
    requires Tree(index, root) && Known(index, root, start)
    ensures Cursor(index, root, [], start, Find(index, root, start))
  {
    if start in index {
      assert LinkedAt(index, root, start);
    }
  }

  lemma BranchSnoc(index: Index, list: seq<Node>, start: Id, x: Node)
    requires IsBranch(index, list, start, x.id) && x.id in index && x == index[x.id]
    ensures IsBranch(index, list + [x], start, x.previous)
  {
    var more := list + [x];
    forall n | 0 <= n < |more|
      ensures more[n].id in index && more[n] == index[more[n].id] && more[n].id == BranchAt(more, start, n)
    {
      assert BranchAt(more, start, n) == BranchAt(list, start, n);
    }
  }

  /** The cursor can go down while another known block has a smaller number. */
  lemma CursorNext(index: Index, root: Node, list: seq<Node>, start: Id, x: Node, y: Node)
    requires Tree(index, root) && Cursor(index, root, list, start, x)
    requires Known(index, root, y.id) && y == Find(index, root, y.id) && x.num > y.num
    ensures Known(index, root, x.previous)
    ensures Cursor(index, root, list + [x], start, Find(index, root, x.previous))
    ensures Find(index, root, x.previous).num == x.num - 1
  {
    if y.id in index {
      assert LinkedAt(index, root, y.id);
    }
    assert LinkedAt(index, root, x.id);
    BranchSnoc(index, list, start, x);
    CursorStart(index, root, x.previous);
  }

  /** Two different blocks of one number both have parents, and their branches stay apart. */
  lemma BothCursorsNext(index: Index, root: Node, a: seq<Node>, first: Id, x: Node, b: seq<Node>, second: Id, y: Node)
    requires Tree(index, root) && Cursor(index, root, a, first, x) && Cursor(index, root, b, second, y)
    requires x.num == y.num && x.id != y.id && Apart(a, b)
    ensures Known(index, root, x.previous) && Known(index, root, y.previous)
    ensures IsBranch(index, a + [x], first, x.previous) && IsBranch(index, b + [y], second, y.previous)
    ensures Cursor(index, root, a + [x], first, Find(index, root, x.previous))
    ensures Cursor(index, root, b + [y], second, Find(index, root, y.previous))
    ensures Find(index, root, x.previous).num == Find(index, root, y.previous).num == x.num - 1
    ensures Find(index, root, x.previous).id == x.previous && Find(index, root, y.previous).id == y.previous
    ensures x.previous != y.previous ==>
              && x.previous in index && Find(index, root, x.previous) == index[x.previous]
              && y.previous in index && Find(index, root, y.previous) == index[y.previous]
    ensures Apart(a + [x], b + [y])
  {
    if x.id in index {
      assert LinkedAt(index, root, x.id);
    }
    if y.id in index {
      assert LinkedAt(index, root, y.id);
    }
    CursorNext(index, root, a, first, x, root);
    CursorNext(index, root, b, second, y, root);
    hide IsBranch;
  }

  ghost predicate OneUp(index: Index, i: Id, j: Id) {
    i in index && index[i].previous == j
  }

  ghost predicate IsWay(index: Index, root: Node, id: Id, path: seq<Id>) {
    && id in index && path != [] && path[0] == index[id].previous && path[|path| - 1] == root.id
    && (forall k :: 0 <= k < |path| ==> Known(index, root, path[k]) && Height(index, path[k]) < Height(index, id))
    && (forall k :: 0 < k < |path| ==> OneUp(index, path[k - 1], path[k]))
  }

  lemma ErasesWay(index: Index, root: Node, id: Id, path: seq<Id>)
    requires Tree(index, root) && IsWay(index, root, id, path)
    ensures Descending(index) && Descending(index - {id})
  {
    TreeDescends(index, root);
    DescendingErase(index, {id});
  }

  /** A block on the way still reaches the root when `id` is gone, and the next one on the way. */
  lemma OnWay(index: Index, root: Node, id: Id, path: seq<Id>, k: nat)
    requires Tree(index, root) && IsWay(index, root, id, path) && k < |path|
    ensures Descending(index - {id})
    ensures Under(index - {id}, path[k], root.id)
    ensures k > 0 ==> Under(index - {id}, path[k - 1], path[k])
  {
    ErasesWay(index, root, id, path);
    if Under(index, path[k], id) {
      UnderHeight(index, path[k], id);
    }
    CutAt(index, root, id, path[k]);
    if k > 0 {
      assert OneUp(index, path[k - 1], path[k]) && path[k - 1] != id;
      assert DescendsAt(index - {id}, path[k - 1]);
    }
  }

  lemma NextOnWay(index: Index, root: Node, id: Id, path: seq<Id>, k: nat, head: Id)
    requires Tree(index, root) && IsWay(index, root, id, path) && k < |path| && GoodHead(index, root, head)
    ensures Descending(index) && Descending(index - {id})
    ensures var base := index - {id};
            && (Under(base, head, path[k]) ==> !Under(index, head, id))
            && (k > 0 ==>
                 && Descending(base - Descendants(base, path[k - 1]))
                 && var left := base - Descendants(base, path[k - 1]);
                    && left - Descendants(left, path[k]) == base - Descendants(base, path[k])
                    && (!Under(base, head, path[k - 1]) ==> (Under(left, head, path[k]) <==> Under(base, head, path[k]))))
  {
    OnWay(index, root, id, path, k);
    ErasesWay(index, root, id, path);
    var base := index - {id};
    if Under(base, head, path[k]) {
      UnderTransitive(base, head, path[k], root.id);
      CutAt(index, root, id, head);
    }
    if k > 0 {
      EraseTwice(base, path[k - 1], path[k]);
      if !Under(base, head, path[k - 1]) {
        UnderErase(base, path[k - 1], head, path[k]);
      }
    }
  }

  /** What a failed advance to `id` leaves: `id` is gone, and with it the branches off the way below the head's ancestors. */
  ghost predicate LeftBehind(index: Index, root: Node, id: Id, head: Id, path: seq<Id>, k: nat, left: Index)
    requires Descending(index - {id})
  {
    && IsWay(index, root, id, path) && k < |path|
    && Under(index - {id}, head, path[k]) && (k > 0 ==> !Under(index - {id}, head, path[k - 1]))
    && left == if k == 0 then index - {id} else (index - {id}) - Descendants(index - {id}, path[k - 1])
  }

  /** A block that links to `id` outlives the failed advance, and its link does not. */
  lemma OrphanStays(index: Index, root: Node, id: Id, head: Id, path: seq<Id>, k: nat, left: Index, i: Id)
    requires Tree(index, root) && Descending(index - {id}) && LeftBehind(index, root, id, head, path, k, left)
    requires i in index && index[i].previous == id
    ensures i in left && left[i] == index[i] && !Known(left, root, id)
  {
    assert LinkedAt(index, root, i) && LinkedAt(index, root, id);
    assert i in index - {id} && DescendsAt(index - {id}, i);
    assert Height(index, id) < Height(index, i);
    assert k > 0 ==> Height(index, path[k - 1]) < Height(index, id);
    assert k > 0 ==> !Under(index - {id}, id, path[k - 1]);
    assert k > 0 ==> !Under(index - {id}, i, path[k - 1]);
  }

  lemma LinkStays(index: Index, root: Node, id: Id, head: Id, path: seq<Id>, k: nat, left: Index, i: Id)
    requires Tree(index, root) && Descending(index - {id}) && LeftBehind(index, root, id, head, path, k, left)
    requires i in left && index[i].previous != id
    ensures LinkedAt(left, root, i)
  {
    assert LinkedAt(index, root, i);
    assert i in index - {id} && DescendsAt(index - {id}, i);
    assert k > 0 ==> !Under(index - {id}, index[i].previous, path[k - 1]);
  }

  /** After a failed advance the database is still a tree exactly if nothing was built on the block. */
  lemma FailedAdvanceKeepsTreeIff(index: Index, root: Node, id: Id, head: Id, path: seq<Id>, k: nat, left: Index)
    requires Tree(index, root) && Descending(index - {id}) && LeftBehind(index, root, id, head, path, k, left)
    ensures Tree(left, root) <==> forall i :: i in index ==> index[i].previous != id
  {
    forall i | i in index && index[i].previous == id
      ensures !Tree(left, root)
    {
      OrphanStays(index, root, id, head, path, k, left, i);
      assert !LinkedAt(left, root, i);
    }
    if forall i :: i in index ==> index[i].previous != id {
      forall i | i in left
        ensures LinkedAt(left, root, i)
      {
        LinkStays(index, root, id, head, path, k, left, i);
      }
    }
  }

  lemma NewRootTree(index: Index, root: Node, id: Id, head: Id)
    requires Tree(index, root) && GoodHead(index, root, head) && id in index
    ensures Descending(index) && Descending(index - {id}) && Tree(Above(index, id), index[id]) && Descending(Above(index, id))
    ensures (index - {id}) - Descendants(index - {id}, root.id) == Above(index, id)
    ensures Under(index - {id}, head, root.id) <==> !Under(index, head, id)
    ensures Under(index, head, id) ==> GoodHead(Above(index, id), index[id], head)
  {
    TreeAbove(index, root, id);
    CutLeavesAbove(index, root, id);
    CutAt(index, root, id, head);
    TreeDescends(Above(index, id), index[id]);
  }

  ghost predicate IsChildren(index: Index, parent: Id, kids: seq<Id>) {
    NoDup(kids) && Elems(kids) == set x | x in index && index[x].previous == parent
  }

  /** The queue of a removal: the block, then blocks whose parents have been handled; those have all their children in it. */
  ghost predicate Queued(index: Index, id: Id, queue: seq<Id>, i: nat) {
    && i <= |queue| && queue != [] && queue[0] == id && NoDup(queue)
    && (forall k :: 1 <= k < |queue| ==> ParentHandled(index, queue, i, k))
    && (forall x :: x in index && index[x].previous in Elems(queue[..i]) ==> x in Elems(queue))
  }

  ghost predicate ParentHandled(index: Index, queue: seq<Id>, i: nat, k: nat)
    requires i <= |queue| && k < |queue|
  {
    queue[k] in index && index[queue[k]].previous in Elems(queue[..i])
  }

  lemma QueueStart(index: Index, id: Id)
    ensures Queued(index, id, [id], 0)
  {
  }

  lemma {:induction false} QueuedUnder(index: Index, id: Id, queue: seq<Id>, i: nat, k: nat)
    requires Descending(index) && Queued(index, id, queue, i) && k < |queue|
    ensures Under(index, queue[k], id)
    decreases Height(index, queue[k])
  {
    if queue[k] != id {
      assert ParentHandled(index, queue, i, k) && DescendsAt(index, queue[k]);
      var j :| 0 <= j < i && queue[j] == index[queue[k]].previous;
      if j > 0 {
        assert ParentHandled(index, queue, i, j);
      }
      if queue[j] != id {
        QueuedUnder(index, id, queue, i, j);
      }
    }
  }

  /** No child of the block at hand is in the queue yet. */
  lemma ChildrenFresh(index: Index, id: Id, queue: seq<Id>, i: nat, x: Id)
    requires Descending(index) && Queued(index, id, queue, i) && i < |queue|
    requires x in index && index[x].previous == queue[i]
    ensures x !in Elems(queue)
  {
    QueuedUnder(index, id, queue, i, i);
    assert DescendsAt(index, x);
    forall k | 0 <= k < |queue|
      ensures queue[k] != x
    {
      if k == 0 {
        if queue[i] != id {
          UnderHeight(index, queue[i], id);
        }
      } else {
        assert ParentHandled(index, queue, i, k);
      }
    }
  }

  lemma QueueStep(index: Index, id: Id, queue: seq<Id>, i: nat, kids: seq<Id>)
    requires Descending(index) && Queued(index, id, queue, i) && i < |queue| && IsChildren(index, queue[i], kids)
    ensures Queued(index, id, queue + kids, i + 1)
    ensures Elems(queue + kids) == Elems(queue) + Elems(kids) && Elems(queue) !! Elems(kids) && Elems(kids) <= index.Keys
  {
    var more := queue + kids;
    assert more[..i + 1] == queue[..i + 1];
    ElemsNext(queue, i);
    forall x | x in Elems(kids)
      ensures x !in Elems(queue)
    {
      ChildrenFresh(index, id, queue, i, x);
    }
    NoDupConcat(queue, kids);
    var n := i + 1;
    forall k | 1 <= k < |more|
      ensures ParentHandled(index, more, n, k)
    {
      if k < |queue| {
        assert ParentHandled(index, queue, i, k);
      } else {
        assert more[k] in Elems(kids);
      }
    }
  }

  lemma {:induction false} UnderQueued(index: Index, id: Id, queue: seq<Id>, x: Id)
    requires Descending(index) && Queued(index, id, queue, |queue|) && Under(index, x, id)
    ensures x in Elems(queue)
    decreases Height(index, x)
  {
    WholePrefix(queue);
    if x != id {
      assert DescendsAt(index, x);
      UnderQueued(index, id, queue, index[x].previous);
    }
  }

  /** A handled queue holds the block and its descendants. */
  lemma QueueDone(index: Index, id: Id, queue: seq<Id>)
    requires Descending(index) && Queued(index, id, queue, |queue|)
    ensures forall x :: Under(index, x, id) ==> x in Elems(queue)
    ensures index - Elems(queue) == index - Descendants(index, id)
  {
    forall x | Under(index, x, id)
      ensures x in Elems(queue)
    {
      UnderQueued(index, id, queue, x);
    }
    forall k | 0 <= k < |queue|
      ensures Under(index, queue[k], id)
    {
      QueuedUnder(index, id, queue, |queue|, k);
    }
  }

  lemma AddKeepsTree(index: Index, root: Node, n: Node)
    requires Tree(index, root) && n.id !in index && n.id != root.id
    requires Known(index, root, n.previous) && n.num == Find(index, root, n.previous).num + 1
    ensures Tree(index[n.id := n], root)
  {
    var more := index[n.id := n];
    forall i | i in more
      ensures LinkedAt(more, root, i)
    {
      if i in index {
        assert LinkedAt(index, root, i);
      } else if n.previous in index {
        assert LinkedAt(index, root, n.previous);
      }
    }
  }

  lemma AddKeepsHead(index: Index, root: Node, head: Id, n: Node, c: Id)
    requires Tree(index, root) && GoodHead(index, root, head) && n.id !in index && n.id != root.id
    requires var more := index[n.id := n]; IsFirst(more, more.Keys, c)
    ensures var more := index[n.id := n];
            c in more && GoodHead(more, root, if more[c].valid then c else head)
  {
  }

  /**
   * Adding a block moves the head exactly when the head is the root and a
   * block of the index is valid, or a valid block comes before the head in
   * the order of the index. A block that is not validated itself can so move
   * the head away from a root that is preferred, or between blocks that tie.
   */
  lemma AddMovesHeadIff(index: Index, root: Node, head: Id, n: Node, c: Id)
    requires Tree(index, root) && GoodHead(index, root, head) && n.id !in index && n.id != root.id
    requires var more := index[n.id := n]; IsFirst(more, more.Keys, c)
    ensures var more := index[n.id := n];
            c in more &&
            (more[c].valid && c != head <==>
             exists i :: i in more && more[i].valid && (head == root.id || Before(more[i], more[head])))
    ensures !n.valid ==>
              (index[n.id := n][c].valid && c != head <==>
               exists i :: i in index && index[i].valid &&
                 (head == root.id || (index[i].lib == index[head].lib && index[i].num == index[head].num && i < head)))
  {
    var more := index[n.id := n];
    assert forall i :: i in index ==> LinkedAt(index, root, i);
    assert forall i :: i in more ==> more[i].id == i && !Before(more[i], more[c]);
    if i :| i in more && more[i].valid {
      assert !Before(more[i], more[c]);
    }
    if head in index {
      assert !Before(more[head], more[c]);
    }
    if i :| !n.valid && i in index && index[i].valid && head == root.id {
      assert i in more && more[i] == index[i];
    }
    if i :| !n.valid && i in index && index[i].valid && head in index && index[i].lib == index[head].lib && index[i].num == index[head].num && i < head {
      assert i in more && more[i] == index[i] && Before(more[i], more[head]);
    }
    if i :| !n.valid && i in more && more[i].valid && head in index && Before(more[i], more[head]) {
      assert i in index && !FirstPreferred(index[i], index[head]);
    }
  }

  lemma FlagKeepsHead(index: Index, root: Node, head: Id, id: Id, c: Id)
    requires Tree(index, root) && GoodHead(index, root, head) && id in index
    requires var marked := index[id := index[id].(valid := true)]; IsFirst(marked, marked.Keys, c)
    ensures var marked := index[id := index[id].(valid := true)];
            && c in marked && c != root.id && Known(marked, root, head)
            && GoodHead(marked, root, if FirstPreferred(marked[c], Find(marked, root, head)) then c else head)
  {
    var marked := index[id := index[id].(valid := true)];
    assert !Before(marked[id], marked[c]);
  }

  lemma FlagKeepsTree(index: Index, root: Node, id: Id)
    requires Tree(index, root) && id in index
    ensures Tree(index[id := index[id].(valid := true)], root)
  {
    var marked := index[id := index[id].(valid := true)];
    forall i | i in marked
      ensures LinkedAt(marked, root, i)
    {
      assert LinkedAt(index, root, i);
    }
  }

  /** Adding a block that is not validated moves the head away from a root that is preferred. */
  method HeadLeavesRoot() returns (before: Node, after: Node)
    ensures before == Node(10, 9, 10, 5, true) && after == Node(11, 10, 11, 4, true) && FirstPreferred(before, after)
  {
    before := Node(10, 9, 10, 5, true);
    var db := new Database(before);
    var _ := db.Add(Node(11, 10, 11, 4, false), false);
    var _ := db.MarkValid(Node(11, 10, 11, 4, false));
    assert db.head == 10 && db.index == map[11 := Node(11, 10, 11, 4, true)];
    var _ := db.Add(Node(12, 11, 12, 4, false), false);
    after := db.index[db.head];
  }

  /** A database of two valid blocks that tie; the one that came first is the head. */
  method TwoBlocks(a: Id, b: Id) returns (db: Database)
    requires 1 < a && 1 < b && a != b
    ensures fresh(db) && db.Valid() && db.root == Node(1, 0, 1, 0, true) && db.head == a
    ensures db.index == map[a := Node(a, 1, 2, 0, true), b := Node(b, 1, 2, 0, true)]
  {
    hide Descending;
    db := new Database(Node(1, 0, 1, 0, true));
    var _ := db.Add(Node(a, 1, 2, 0, false), false);
    var _ := db.MarkValid(Node(a, 1, 2, 0, false));
    assert db.index == map[a := Node(a, 1, 2, 0, true)];
    assert db.head == a;
    var _ := db.Add(Node(b, 1, 2, 0, false), false);
    assert db.head == a;
    var _ := db.MarkValid(Node(b, 1, 2, 0, false));
  }

  /** It moves the head between two blocks that tie. */
  method HeadLeavesTie() returns (before: Id, after: Id)
    ensures before == 5 && after == 3
  {
    hide Tree, Descending;
    var db := TwoBlocks(5, 3);
    before := db.head;
    var _ := db.Add(Node(7, 5, 3, 0, false), false);
    ghost var c: Id :| IsFirst(db.index, db.index.Keys, c) && db.head == if db.index[c].valid then c else 5;
    assert !Before(db.index[3], db.index[c]);
    after := db.head;
  }

  /** A failed advance to block 3 leaves block 4 without its parent. */
  method AdvanceOrphans() returns (r: Advanced, root: Node, left: Index)
    ensures r.RemovesHead? && 4 in left && left[4].previous == 3 && !Known(left, root, 3) && !Tree(left, root)
  {
    hide Under, Descending, LeftBehind;
    var db := TwoBlocks(2, 3);
    var _ := db.Add(Node(4, 3, 3, 0, false), false);
    ghost var index := db.index;
    ghost var c: Id :| IsFirst(index, index.Keys, c) && db.head == if index[c].valid then c else 2;
    assert !Before(index[2], index[c]);
    TwoNotUnderThree(index);
    r := db.AdvanceRoot(3);
    root, left := db.root, db.index;
    ghost var path, k: nat :| LeftBehind(index, root, 3, 2, path, k, left);
    OrphanStays(index, root, 3, 2, path, k, left, 4);
    assert !LinkedAt(left, root, 4);
  }

  lemma TwoNotUnderThree(index: Index)
    requires Descending(index) && 2 in index && index[2].previous == 1 && 1 !in index
    ensures !Under(index, 2, 3)
  {
  }
}
