/** The loops that drive test nodes: copying blocks, producing until something is seen, and scanning slots. */
module TestChains {
  import opened Dpos

  /** A node's chain; its head has the number of blocks as its block number. */
  class Chain<B> {
    var blocks: seq<B>

    constructor (blocks: seq<B>)
      ensures this.blocks == blocks
    {
      this.blocks := blocks;
    }

    method PushBlock(b: B)
      modifies this
      ensures blocks == old(blocks) + [b]
    {
      blocks := blocks + [b];
    }
  }

  function Min(a: nat, b: nat): nat { if a < b then a else b }

  /** Blocks are pushed in ascending order up to the limit, and only blocks of the source. */
  method PushBlocks<B>(from: Chain<B>, to: Chain<B>, limit: nat)
    requires to.blocks <= from.blocks
    modifies to
    ensures from.blocks == old(from.blocks)
    ensures var reach := if limit <= |from.blocks| then limit else |from.blocks|;
            to.blocks == if |old(to.blocks)| < reach then from.blocks[..reach] else old(to.blocks)
    ensures to.blocks <= from.blocks
  {
    while |to.blocks| < Min(|from.blocks|, limit)
      invariant from.blocks == old(from.blocks) && old(to.blocks) <= to.blocks <= from.blocks
      invariant |to.blocks| <= Min(|from.blocks|, limit) || to.blocks == old(to.blocks)
      decreases |from.blocks| - |to.blocks|
    {
      to.PushBlock(from.blocks[|to.blocks|]);
    }
  }

  /** A node that produces: how far it has come, and who produces which block. */
  class Producer {
    var head: nat
    const headProducer: nat -> Name
    const pendingProducer: nat -> Name

    constructor (head: nat, headProducer: nat -> Name, pendingProducer: nat -> Name)
      ensures this.head == head && this.headProducer == headProducer && this.pendingProducer == pendingProducer
    {
      this.head, this.headProducer, this.pendingProducer := head, headProducer, pendingProducer;
    }

    method ProduceBlock()
      modifies this`head
      ensures head == old(head) + 1
    {
      head := head + 1;
    }
  }

  /** The predicate holds at none of the heads from `start` up to, but not including, `end`. */
  ghost predicate NotSeen(pred: nat -> bool, start: nat, end: nat) {
    forall h: nat :: start <= h < end ==> !pred(h)
  }

  /** Blocks are produced until the predicate holds, but no more than `max`; it is looked at once more after the last one. */
  method ProduceEmptyBlocksUntil(t: Producer, max: nat, pred: nat -> bool) returns (seen: bool)
    modifies t`head
    ensures old(t.head) <= t.head <= old(t.head) + max && NotSeen(pred, old(t.head), t.head)
    ensures seen == pred(t.head)
    ensures !seen ==> t.head == old(t.head) + max
  {
    var produced := 0;
    while produced < max
      invariant produced <= max && t.head == old(t.head) + produced
      invariant NotSeen(pred, old(t.head), t.head)
    {
      if pred(t.head) { return true; }
      t.ProduceBlock();
      produced := produced + 1;
    }
    return pred(t.head);
  }

  /** The first observation, if any of the `max + 1`, at which `last` made the head and `next` is due. */
  method ProduceUntilTransition(t: Producer, last: Name, next: Name, max: nat) returns (seen: bool)
    modifies t`head
    ensures seen <==> exists h: nat :: old(t.head) <= h <= old(t.head) + max &&
                        t.headProducer(h) == last && t.pendingProducer(h) == next
    ensures seen ==> t.headProducer(t.head) == last && t.pendingProducer(t.head) == next
    ensures old(t.head) <= t.head <= old(t.head) + max && (!seen ==> t.head == old(t.head) + max)
    ensures forall h: nat :: old(t.head) <= h < t.head ==>
                        t.headProducer(h) != last || t.pendingProducer(h) != next
  {
    var pending, made := t.pendingProducer, t.headProducer;
    var pred := (h: nat) => pending(h) == next && made(h) == last;
    seen := ProduceEmptyBlocksUntil(t, max, pred);
    forall h: nat | old(t.head) <= h < t.head
      ensures made(h) != last || pending(h) != next
    {
      assert !pred(h);
    }
  }

  /** The producers of the heads from `start` up to, but not including, `start + k`. */
  ghost function Observed(made: nat -> Name, start: nat, k: nat): set<Name> {
    if k == 0 then {} else Observed(made, start, k - 1) + {made(start + k - 1)}
  }

  /** Some of the expected producers is missing from the first `k` observations. */
  ghost predicate Missing(made: nat -> Name, expected: set<Name>, start: nat, k: nat) {
    expected - Observed(made, start, k) != {}
  }

  /** The predicate crosses off the producer of the head and holds once none is left. */
  method ProduceUntilBlocksFrom(t: Producer, expected: set<Name>, max: nat) returns (seen: bool)
    modifies t`head
    ensures seen <==> expected <= Observed(t.headProducer, old(t.head), max + 1)
    ensures old(t.head) <= t.head <= old(t.head) + max && (!seen ==> t.head == old(t.head) + max)
    ensures seen ==> expected <= Observed(t.headProducer, old(t.head), t.head - old(t.head) + 1)
    ensures t.head > old(t.head) ==> Missing(t.headProducer, expected, old(t.head), t.head - old(t.head))
  {
    hide Missing, Observed;
    var remaining, produced := expected, 0;
    ghost var made, start := t.headProducer, t.head;
    NoneObserved(made, expected, start);
    while produced < max
      invariant produced <= max && t.head == start + produced
      invariant remaining == expected - Observed(made, start, produced)
      invariant produced > 0 ==> Missing(made, expected, start, produced)
    {
      remaining := remaining - {t.headProducer(t.head)};
      CrossOff(made, expected, start, produced);
      if remaining == {} {
        ObservedGrows(made, start, produced + 1, max + 1);
        return true;
      }
      t.ProduceBlock();
      produced := produced + 1;
    }
    remaining := remaining - {t.headProducer(t.head)};
    CrossOff(made, expected, start, produced);
    seen := remaining == {};
  }

  lemma NoneObserved(made: nat -> Name, expected: set<Name>, start: nat)
    ensures expected - Observed(made, start, 0) == expected
  {
  }

  lemma CrossOff(made: nat -> Name, expected: set<Name>, start: nat, k: nat)
    ensures expected - Observed(made, start, k) - {made(start + k)} == expected - Observed(made, start, k + 1)
    ensures expected <= Observed(made, start, k + 1) <==> expected - Observed(made, start, k + 1) == {}
    ensures Missing(made, expected, start, k + 1) <==> expected - Observed(made, start, k + 1) != {}
  {
    var rest := expected - Observed(made, start, k + 1);
    assert forall p :: p in expected ==> p in rest || p in Observed(made, start, k + 1);
  }

  lemma {:induction false} ObservedGrows(made: nat -> Name, start: nat, j: nat, k: nat)
    requires j <= k
    ensures Observed(made, start, j) <= Observed(made, start, k)
    decreases k
  {
    if j < k {
      ObservedGrows(made, start, j, k - 1);
    }
  }

  /** What was missing after `k` observations was missing earlier: the loop stops at the least number that suffices. */
  lemma MissingEarlier(made: nat -> Name, expected: set<Name>, start: nat, j: nat, k: nat)
    requires j <= k && Missing(made, expected, start, k)
    ensures Missing(made, expected, start, j)
  {
    ObservedGrows(made, start, j, k);
    var p :| p in expected - Observed(made, start, k);
    assert p in expected - Observed(made, start, j);
  }

  /** A chain as the slots of its blocks. */
  class SlotChain {
    var slots: seq<nat>

    constructor (slots: seq<nat>)
      requires slots != []
      ensures this.slots == slots
    {
      this.slots := slots;
    }

    /** The next block comes `skip` intervals after the head. */
    method ProduceBlock(skip: nat)
      requires slots != []
      modifies this
      ensures slots == old(slots) + [old(slots)[|old(slots)| - 1] + skip]
    {
      slots := slots + [slots[|slots| - 1] + skip];
    }
  }

  /** The slots of the window of length `n` behind `start` that belong to `owners`, in order. */
  ghost function Owned(schedule: nat -> Name, owners: set<Name>, start: nat, n: nat): seq<nat> {
    if n == 0 then [] else
      Owned(schedule, owners, start, n - 1) + if schedule(start + n) in owners then [start + n] else []
  }

  lemma OwnedNone(schedule: nat -> Name, owners: set<Name>, start: nat, slots: seq<nat>)
    ensures slots == slots + Owned(schedule, owners, start, 0)
  {
  }

  lemma OwnedNext(schedule: nat -> Name, owners: set<Name>, start: nat, slots: seq<nat>, n: nat)
    ensures slots + Owned(schedule, owners, start, n + 1) ==
            slots + Owned(schedule, owners, start, n) + (if schedule(start + 1 + n) in owners then [start + 1 + n] else [])
  {
  }

  ghost function Last(slots: seq<nat>): nat
    requires slots != []
  {
    slots[|slots| - 1]
  }

  /** One chain's half of an iteration: a block in the examined slot if its own producer is scheduled there. */
  method ProduceIfOwned(c: SlotChain, schedule: nat -> Name, owners: set<Name>, skip: nat) returns (next: nat)
    requires c.slots != []
    modifies c
    ensures c.slots == old(c.slots) + (if schedule(Last(old(c.slots)) + skip) in owners then [Last(old(c.slots)) + skip] else [])
    ensures Last(c.slots) + next == Last(old(c.slots)) + skip + 1
  {
    var scheduled := schedule(c.slots[|c.slots| - 1] + skip);
    if scheduled in owners {
      c.ProduceBlock(skip);
      next := 1;
    } else {
      next := skip + 1;
    }
  }

  /** Two forks scan windows of the same length: each produces in exactly the slots of its own producers. */
  method ScanSlots(c: SlotChain, d: SlotChain, schedule: nat -> Name, owners1: set<Name>, owners2: set<Name>, n: nat)
    requires c != d && c.slots != [] && d.slots != []
    modifies c, d
    ensures c.slots == old(c.slots) + Owned(schedule, owners1, Last(old(c.slots)), n)
    ensures d.slots == old(d.slots) + Owned(schedule, owners2, Last(old(d.slots)), n)
  {
    hide Last, Owned;
    ghost var s1, s2 := Last(c.slots), Last(d.slots);
    OwnedNone(schedule, owners1, s1, c.slots);
    OwnedNone(schedule, owners2, s2, d.slots);
    var skip1, skip2, i := 1, 1, 0;
    while i < n
      invariant i <= n && c.slots != [] && d.slots != []
      invariant Last(c.slots) + skip1 == s1 + 1 + i && Last(d.slots) + skip2 == s2 + 1 + i
      invariant c.slots == old(c.slots) + Owned(schedule, owners1, s1, i)
      invariant d.slots == old(d.slots) + Owned(schedule, owners2, s2, i)
    {
      skip1 := ProduceIfOwned(c, schedule, owners1, skip1);
      skip2 := ProduceIfOwned(d, schedule, owners2, skip2);
      OwnedNext(schedule, owners1, s1, old(c.slots), i);
      OwnedNext(schedule, owners2, s2, old(d.slots), i);
      i := i + 1;
    }
  }

  /** No owned slot of the window is skipped and no other is used. */
  lemma {:induction false} OwnedSlots(schedule: nat -> Name, owners: set<Name>, start: nat, n: nat, slot: nat)
    ensures slot in Owned(schedule, owners, start, n) <==> start < slot <= start + n && schedule(slot) in owners
    decreases n
  {
    if n > 0 {
      OwnedSlots(schedule, owners, start, n - 1, slot);
    }
  }

  /** The slots ascend: each one owned is used once, in its turn. */
  lemma {:induction false} OwnedAscend(schedule: nat -> Name, owners: set<Name>, start: nat, n: nat)
    ensures forall i :: 0 <= i < |Owned(schedule, owners, start, n)| ==> Owned(schedule, owners, start, n)[i] <= start + n
    ensures forall i, j :: 0 <= i < j < |Owned(schedule, owners, start, n)| ==>
              Owned(schedule, owners, start, n)[i] < Owned(schedule, owners, start, n)[j]
    decreases n
  {
    if n > 0 {
      OwnedAscend(schedule, owners, start, n - 1);
      var front := Owned(schedule, owners, start, n - 1);
      assert forall i :: 0 <= i < |front| ==> front[i] < start + n;
    }
  }
}
