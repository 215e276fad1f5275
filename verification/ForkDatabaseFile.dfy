/** The fork database on file: written when it is closed, read back block by block when it is opened. */
module ForkDatabaseFile {
  import opened Lists
  import opened ForkTree
  import opened ForkDatabase

  datatype File = File(root: Node, blocks: seq<Node>, head: Id)

  /** Not preferred over the other. */
  predicate AtMost(a: Node, b: Node) {
    !FirstPreferred(a, b)
  }

  ghost predicate Ascends(list: seq<Node>) {
    forall i, j :: 0 <= i < j < |list| ==> AtMost(list[i], list[j])
  }

  /** Every block of `index` with an id in `ids`, once. */
  ghost predicate IsListing(index: Index, ids: set<Id>, list: seq<Node>) {
    && NoDup(list)
    && (forall n :: n in list ==> n.id in ids && n.id in index && index[n.id] == n)
    && (forall i :: i in ids && i in index ==> index[i] in list)
  }

  /** The blocks of one part of the index, all validated or all not, walked backwards. */
  method Backwards(index: Index, ids: set<Id>, valid: bool) returns (list: seq<Node>)
    requires Descending(index) && ids <= index.Keys && forall i :: i in ids ==> index[i].valid == valid
    ensures Ascends(list) && IsListing(index, ids, list)
  {
    hide Ascends, IsListing;
    list := [];
    var left := ids;
    NothingListed(index, ids);
    while left != {}
      invariant left <= ids && Ascends(list) && IsListing(index, ids - left, list) && Behind(index, left, list)
      decreases left
    {
      ghost var some := FirstExists(index, left);
      var c :| c in left && IsFirst(index, left, c);
      FirstGoesAhead(index, ids, left, list, valid, c);
      list := [index[c]] + list;
      left := left - {c};
    }
    assert ids - left == ids;
  }

  /** What is left comes after what is listed, in the order of the index. */
  ghost predicate Behind(index: Index, left: set<Id>, list: seq<Node>)
    requires left <= index.Keys
  {
    forall i, n :: i in left && n in list ==> !Before(index[i], n)
  }

  lemma NothingListed(index: Index, ids: set<Id>)
    requires ids <= index.Keys
    ensures Ascends([]) && IsListing(index, ids - ids, []) && Behind(index, ids, [])
  {
  }

  lemma FirstGoesAhead(index: Index, ids: set<Id>, left: set<Id>, list: seq<Node>, valid: bool, c: Id)
    requires Descending(index) && left <= ids <= index.Keys && forall i :: i in ids ==> index[i].valid == valid
    requires Ascends(list) && IsListing(index, ids - left, list) && Behind(index, left, list)
    requires c in left && IsFirst(index, left, c)
    ensures Ascends([index[c]] + list) && IsListing(index, ids - (left - {c}), [index[c]] + list)
    ensures Behind(index, left - {c}, [index[c]] + list)
  {
    assert DescendsAt(index, c);
    var more := [index[c]] + list;
    assert index[c] !in Elems(list);
    NoDupCons(index[c], list);
    forall n | n in list
      ensures AtMost(index[c], n)
    {
      assert !Before(index[c], n) && index[n.id] == n;
    }
    assert forall j :: 0 < j < |more| ==> more[j] == list[j - 1] && more[j] in list;
  }

  /** The first `i` and `j` blocks of two ascending lists, merged into one. */
  ghost predicate Merged(file: seq<Node>, xs: seq<Node>, i: nat, ys: seq<Node>, j: nat) {
    && i <= |xs| && j <= |ys| && NoDup(xs + ys) && Ascends(xs) && Ascends(ys)
    && Ascends(file) && NoDup(file) && Elems(file) == Elems(xs[..i]) + Elems(ys[..j])
    && (forall a, b :: 0 <= a < |file| && i <= b < |xs| ==> AtMost(file[a], xs[b]))
    && (forall a, b :: 0 <= a < |file| && j <= b < |ys| ==> AtMost(file[a], ys[b]))
  }

  lemma MergeStart(xs: seq<Node>, ys: seq<Node>)
    requires NoDup(xs + ys) && Ascends(xs) && Ascends(ys)
    ensures Merged([], xs, 0, ys, 0)
  {
  }

  lemma MergedSwap(file: seq<Node>, xs: seq<Node>, i: nat, ys: seq<Node>, j: nat)
    requires Merged(file, xs, i, ys, j)
    ensures Merged(file, ys, j, xs, i)
  {
    Apart(xs, ys);
    NoDupConcat(ys, xs);
  }

  lemma Apart(xs: seq<Node>, ys: seq<Node>)
    requires NoDup(xs + ys)
    ensures NoDup(xs) && NoDup(ys) && Elems(xs) !! Elems(ys)
  {
    var both := xs + ys;
    assert forall k :: 0 <= k < |xs| ==> both[k] == xs[k];
    assert forall k :: 0 <= k < |ys| ==> both[|xs| + k] == ys[k];
  }

  lemma MergeStep(file: seq<Node>, xs: seq<Node>, i: nat, ys: seq<Node>, j: nat)
    requires Merged(file, xs, i, ys, j) && i < |xs| && (j < |ys| ==> AtMost(xs[i], ys[j]))
    ensures Merged(file + [xs[i]], xs, i + 1, ys, j)
  {
    Apart(xs, ys);
    var more := file + [xs[i]];
    ElemsNext(xs, i);
    NoDupFresh(xs, i);
    assert Elems(ys[..j]) <= Elems(ys) && xs[i] in Elems(xs);
    NoDupSnoc(file, xs[i]);
    assert forall a :: 0 <= a < |file| ==> more[a] == file[a];
    assert forall b :: j <= b < |ys| ==> AtMost(xs[i], ys[b]);
  }

  /** The blocks are written by merging the two parts of the index, and the index is cleared. */
  method Close(db: Database) returns (f: File)
    requires db.Valid()
    modifies db`index
    ensures db.index == map[]
    ensures f.root == db.root && f.head == db.head
    ensures Ascends(f.blocks) && IsListing(old(db.index), old(db.index).Keys, f.blocks)
  {
    hide Ascends, IsListing, Merged, Tree, GoodHead, Descending;
    var index := db.index;
    var waiting, done := set i | i in index && !index[i].valid, set i | i in index && index[i].valid;
    var unvalidated := Backwards(index, waiting, false);
    var validated := Backwards(index, done, true);
    PartsApart(index, waiting, done, unvalidated, validated);
    var blocks, u, v := [], 0, 0;
    MergeStart(unvalidated, validated);
    while u < |unvalidated| || v < |validated|
      invariant Merged(blocks, unvalidated, u, validated, v) && u <= |unvalidated| && v <= |validated|
      decreases |unvalidated| - u + |validated| - v
    {
      if v == |validated| || (u < |unvalidated| && FirstPreferred(validated[v], unvalidated[u])) {
        Preferred(unvalidated, u, validated, v);
        MergeStep(blocks, unvalidated, u, validated, v);
        blocks := blocks + [unvalidated[u]];
        u := u + 1;
      } else {
        MergedSwap(blocks, unvalidated, u, validated, v);
        MergeStep(blocks, validated, v, unvalidated, u);
        MergedSwap(blocks + [validated[v]], validated, v + 1, unvalidated, u);
        blocks := blocks + [validated[v]];
        v := v + 1;
      }
    }
    AllMerged(index, waiting, done, unvalidated, validated, blocks);
    db.index := map[];
    f := File(db.root, blocks, db.head);
  }

  lemma Preferred(xs: seq<Node>, i: nat, ys: seq<Node>, j: nat)
    requires i < |xs| && j <= |ys| && (j == |ys| || FirstPreferred(ys[j], xs[i]))
    ensures j < |ys| ==> AtMost(xs[i], ys[j])
  {
  }

  lemma PartsApart(index: Index, waiting: set<Id>, done: set<Id>, xs: seq<Node>, ys: seq<Node>)
    requires IsListing(index, waiting, xs) && IsListing(index, done, ys) && waiting !! done
    ensures NoDup(xs + ys)
  {
    assert forall n :: n in Elems(xs) ==> n.id in waiting;
    assert forall n :: n in Elems(ys) ==> n.id in done;
    NoDupConcat(xs, ys);
  }

  lemma AllMerged(index: Index, waiting: set<Id>, done: set<Id>, xs: seq<Node>, ys: seq<Node>, file: seq<Node>)
    requires Merged(file, xs, |xs|, ys, |ys|) && IsListing(index, waiting, xs) && IsListing(index, done, ys)
    requires waiting + done == index.Keys
    ensures Ascends(file) && IsListing(index, index.Keys, file)
  {
    WholePrefix(xs);
    WholePrefix(ys);
    assert forall n :: n in file <==> n in Elems(file);
    assert forall n :: n in file <==> n in xs || n in ys;
  }

  /** Each block comes after its parent, or is built on the root. */
  ghost predicate Linkable(root: Node, blocks: seq<Node>) {
    forall k: nat :: k < |blocks| ==> LinkedSoFar(root, blocks, k)
  }

  ghost predicate LinkedSoFar(root: Node, blocks: seq<Node>, k: nat)
    requires k < |blocks|
  {
    blocks[k].previous == root.id || exists j :: 0 <= j < k && blocks[j].id == blocks[k].previous
  }

  /** The irreversible number falls from the parent, which is in the index too. */
  predicate FallsAt(index: Index, i: Id)
    requires i in index
  {
    index[i].previous in index && index[i].lib < index[index[i].previous].lib
  }

  lemma FallenComesFirst(index: Index, root: Node, blocks: seq<Node>, i: Id)
    requires Tree(index, root) && Ascends(blocks) && IsListing(index, index.Keys, blocks) && i in index && FallsAt(index, i)
    ensures !Linkable(root, blocks)
  {
    var k: nat :| k < |blocks| && blocks[k] == index[i];
    assert forall j :: 0 <= j < k ==> blocks[j] in blocks && AtMost(blocks[j], blocks[k]);
    assert !LinkedSoFar(root, blocks, k);
  }

  lemma ParentComesFirst(index: Index, root: Node, blocks: seq<Node>, k: nat)
    requires Tree(index, root) && Ascends(blocks) && IsListing(index, index.Keys, blocks) && k < |blocks|
    requires !FallsAt(index, blocks[k].id)
    ensures LinkedSoFar(root, blocks, k)
  {
    var n := blocks[k];
    assert n in blocks && LinkedAt(index, root, n.id);
    if n.previous != root.id {
      var p := index[n.previous];
      assert LinkedAt(index, root, n.previous);
      assert p in blocks;
      var j: nat :| j < |blocks| && blocks[j] == p;
      assert k < j ==> AtMost(n, p);
    }
  }

  /** What was written can be read back, block by block, exactly if the irreversible number falls nowhere in the index. */
  lemma LinkableIff(index: Index, root: Node, blocks: seq<Node>)
    requires Tree(index, root) && Ascends(blocks) && IsListing(index, index.Keys, blocks)
    ensures Linkable(root, blocks) <==> forall i :: i in index ==> !FallsAt(index, i)
  {
    hide Ascends, Tree;
    if i :| i in index && FallsAt(index, i) {
      FallenComesFirst(index, root, blocks, i);
    } else {
      forall k: nat | k < |blocks|
        ensures LinkedSoFar(root, blocks, k)
      {
        assert blocks[k] in blocks;
        ParentComesFirst(index, root, blocks, k);
      }
    }
  }

  /** What the first `k` blocks of a file make of the index. */
  ghost predicate Loaded(index: Index, saved: Index, blocks: seq<Node>, k: nat) {
    && k <= |blocks|
    && (forall i :: i in index <==> exists j :: 0 <= j < k && blocks[j].id == i)
    && (forall i :: i in index ==> i in saved && index[i] == saved[i])
  }

  /** The next block of a file, as the database sees it. */
  lemma NextBlock(index: Index, saved: Index, root: Node, blocks: seq<Node>, k: nat)
    requires Tree(saved, root) && IsListing(saved, saved.Keys, blocks) && Loaded(index, saved, blocks, k) && k < |blocks|
    ensures blocks[k].id !in index && blocks[k].id != root.id
    ensures Known(index, root, blocks[k].previous) <==> LinkedSoFar(root, blocks, k)
    ensures Known(index, root, blocks[k].previous) ==> blocks[k].num == Find(index, root, blocks[k].previous).num + 1
    ensures Loaded(index[blocks[k].id := blocks[k]], saved, blocks, k + 1)
  {
    var n := blocks[k];
    assert n in blocks && LinkedAt(saved, root, n.id);
    assert forall j :: 0 <= j < k ==> blocks[j] in blocks && blocks[j].id != n.id;
    var more := index[n.id := n];
    forall i
      ensures i in more <==> exists j :: 0 <= j < k + 1 && blocks[j].id == i
    {
      if j :| 0 <= j < k && blocks[j].id == i {
        assert i in index;
      }
      assert blocks[k].id == n.id;
    }
  }

  lemma AllLoaded(index: Index, saved: Index, root: Node, blocks: seq<Node>)
    requires Tree(saved, root) && IsListing(saved, saved.Keys, blocks) && Loaded(index, saved, blocks, |blocks|)
    ensures index == saved
  {
    forall i | i in saved
      ensures i in index
    {
      assert LinkedAt(saved, root, i) && saved[i] in blocks;
    }
  }

  /** Each block is added in turn, then the head is set and checked against the best block. */
  method Open(db: Database, f: File, ghost saved: Index) returns (ok: bool)
    requires Tree(saved, f.root) && f.root.valid && GoodHead(saved, f.root, f.head)
    requires IsListing(saved, saved.Keys, f.blocks)
    modifies db
    ensures ok <==> Linkable(f.root, f.blocks)
    ensures ok ==> db.Valid() && db.index == saved && db.root == f.root && db.head == f.head
  {
    hide IsListing, Tree, GoodHead, Descending, Loaded;
    db.index, db.root, db.head := map[], f.root.(valid := true), f.root.id;
    Reset(saved, f.root, f.blocks);
    var k := 0;
    while k < |f.blocks|
      invariant db.Valid() && db.root == f.root && k <= |f.blocks| && Loaded(db.index, saved, f.blocks, k)
      invariant forall j: nat :: j < k ==> LinkedSoFar(f.root, f.blocks, j)
    {
      NextBlock(db.index, saved, f.root, f.blocks, k);
      var r := db.Add(f.blocks[k], false);
      if !r.Inserted? {
        assert !LinkedSoFar(f.root, f.blocks, k);
        return false;
      }
      k := k + 1;
    }
    AllLoaded(db.index, saved, f.root, f.blocks);
    db.head := f.head;
    var isBest := db.head == db.root.id;
    if db.index != map[] {
      var c := db.Candidate();
      BestIsHead(db.index, db.root, db.head, c);
      if db.index[c].valid {
        isBest := !FirstPreferred(db.index[c], Find(db.index, db.root, db.head));
      }
    }
    ok := Known(db.index, db.root, db.head) && isBest;
    OnlyRoot(saved, f.root, f.head);
  }

  lemma Reset(saved: Index, root: Node, blocks: seq<Node>)
    requires root.valid
    ensures Tree(map[], root) && Descending(map[]) && GoodHead(map[], root, root.id) && Loaded(map[], saved, blocks, 0)
  {
  }

  lemma BestIsHead(index: Index, root: Node, head: Id, c: Id)
    requires Tree(index, root) && GoodHead(index, root, head) && IsFirst(index, index.Keys, c)
    ensures Known(index, root, head) && c in index
    ensures index[c].valid ==> !FirstPreferred(index[c], Find(index, root, head))
    ensures !index[c].valid ==> head == root.id
  {
    if head in index {
      assert !Before(index[head], index[c]);
    }
  }

  lemma OnlyRoot(index: Index, root: Node, head: Id)
    requires GoodHead(index, root, head)
    ensures Known(index, root, head) && (index == map[] ==> head == root.id)
  {
  }

  /** Closing and opening restores the database if and only if the irreversible number falls nowhere in the index. */
  method Restart(db: Database) returns (ok: bool)
    requires db.Valid()
    modifies db
    ensures ok <==> forall i :: i in old(db.index) ==> !FallsAt(old(db.index), i)
    ensures ok ==> db.Valid() && db.index == old(db.index) && db.root == old(db.root) && db.head == old(db.head)
  {
    hide IsListing, Ascends, Tree, GoodHead, Descending, Linkable;
    ghost var saved := db.index;
    var f := Close(db);
    LinkableIff(saved, f.root, f.blocks);
    ok := Open(db, f, saved);
  }

  /** A database with a block whose irreversible number is below its parent's does not come back. */
  method RestartFails() returns (ok: bool)
    ensures !ok
  {
    var db := new Database(Node(9, 8, 9, 4, true));
    var _ := db.Add(Node(10, 9, 10, 5, false), false);
    var _ := db.Add(Node(11, 10, 11, 4, false), false);
    assert FallsAt(db.index, 11);
    ok := Restart(db);
  }
}
