/** Delegated proof of stake: how a block header state follows from the one before it. */
module Dpos {
  import opened Lists

  type Name = nat

  const PRODUCER_REPETITIONS := 12
  const MAX_PRODUCERS := 125
  const MAX_TRACKED := 1024
  const WORD16 := 0x1_0000
  const WORD32 := 0x1_0000_0000

  /** The parts of a block header state that decide irreversibility. */
  datatype State = State(blockNum: nat, slot: nat, proposed: nat, lib: nat, active: seq<Name>,
                         lastProduced: map<Name, nat>, implied: map<Name, nat>, counts: seq<nat>,
                         pending: seq<Name>, pendingLib: nat)

  /** A header: its slot, how many blocks before it it confirms, and the schedule it proposes. */
  datatype Header = Header(slot: nat, confirmed: nat, schedule: Option<seq<Name>>)

  function Scheduled(s: State, slot: nat): (p: Name)
    requires s.active != []
    ensures p in s.active
  {
    var index := (slot % (|s.active| * PRODUCER_REPETITIONS)) / PRODUCER_REPETITIONS;
    IndexInSchedule(slot, |s.active|);
    s.active[index]
  }

  lemma IndexInSchedule(slot: nat, n: nat)
    requires n > 0
    ensures 0 <= (slot % (n * PRODUCER_REPETITIONS)) / PRODUCER_REPETITIONS < n
  {
  }

  function Required(s: State): nat { |s.active| * 2 / 3 + 1 }

  /** `v` stands at index `k` of the values in ascending order. */
  predicate IsKth(m: map<Name, nat>, k: nat, v: nat) {
    && v in m.Values
    && |Below(m, v)| <= k < |Below(m, v + 1)|
  }

  function Below(m: map<Name, nat>, v: nat): set<Name> {
    set p | p in m && m[p] < v
  }

  /** What every producer implies to be irreversible once `producer` has made the next block. */
  function Implications(s: State, producer: Name): (m: map<Name, nat>)
    ensures m.Keys == s.implied.Keys
  {
    map p | p in s.implied :: if p == producer then s.proposed else s.implied[p]
  }

  ghost function LastIrreversible(m: map<Name, nat>): nat {
    if m == map[] then 0 else
      KthExists(m, (|m| - 1) / 3);
      var v: nat :| IsKth(m, (|m| - 1) / 3, v);
      v
  }

  lemma SmallerBelow(m: map<Name, nat>, v: nat, w: nat)
    requires v <= w
    ensures |Below(m, v)| <= |Below(m, w)|
  {
    SubsetSize(Below(m, v), Below(m, w));
  }

  /** The next larger value in a map, if there is one: nothing lies strictly between. */
  lemma {:induction false} NextValue(m: map<Name, nat>, above: set<Name>, v: nat) returns (w: nat)
    requires above != {} && forall p :: p in above <==> p in m && m[p] > v
    ensures w in m.Values && w > v && Below(m, w) == Below(m, v + 1)
  {
    var q :| q in above;
    w := m[q];
    var rest := above - {q};
    while rest != {}
      invariant rest <= above && w in m.Values && w > v
      invariant forall p :: p in above - rest ==> w <= m[p]
      decreases rest
    {
      var p :| p in rest;
      if m[p] < w {
        w := m[p];
      }
      rest := rest - {p};
    }
  }

  lemma {:induction false} KthFrom(m: map<Name, nat>, k: nat, v: nat, above: set<Name>)
    requires k < |m| && v in m.Values && |Below(m, v)| <= k
    requires forall p :: p in above <==> p in m && m[p] > v
    ensures exists w: nat :: IsKth(m, k, w)
    decreases |above|
  {
    assert |m.Keys| == |m| && (above == {} ==> Below(m, v + 1) == m.Keys);
    if k < |Below(m, v + 1)| {
      assert IsKth(m, k, v);
    } else {
      var w := NextValue(m, above, v);
      var above' := set p | p in above && m[p] > w;
      var q :| q in m && m[q] == w;
      assert q in above && q !in above';
      SubsetSize(above', above - {q});
      KthFrom(m, k, w, above');
    }
  }

  lemma KthExists(m: map<Name, nat>, k: nat)
    requires k < |m|
    ensures exists v: nat :: IsKth(m, k, v)
  {
    assert |m.Keys| == |m|;
    var p :| p in m.Keys;
    var least := m[p];
    var rest := m.Keys;
    while rest != {}
      invariant rest <= m.Keys && least in m.Values
      invariant forall p :: p in m.Keys - rest ==> least <= m[p]
      decreases rest
    {
      var p :| p in rest;
      if m[p] < least {
        least := m[p];
      }
      rest := rest - {p};
    }
    assert Below(m, least) == {};
    KthFrom(m, k, least, set p | p in m && m[p] > least);
  }

  /** The value at index `k` is at least `w` exactly when at most `k` values lie below `w`. */
  lemma KthAtLeast(m: map<Name, nat>, k: nat, v: nat, w: nat)
    requires IsKth(m, k, v)
    ensures v >= w <==> |Below(m, w)| <= k
  {
    if v >= w {
      SmallerBelow(m, w, v);
    } else {
      SmallerBelow(m, v + 1, w);
    }
  }

  lemma LibAtLeast(m: map<Name, nat>, w: nat)
    requires m != map[]
    ensures LastIrreversible(m) >= w <==> |Below(m, w)| <= (|m| - 1) / 3
    ensures LastIrreversible(m) in m.Values
  {
    KthExists(m, (|m| - 1) / 3);
    KthAtLeast(m, (|m| - 1) / 3, LastIrreversible(m), w);
  }

  /** More than two thirds of the producers imply the last irreversible block, or a later one. */
  lemma TwoThirdsImplyLib(m: map<Name, nat>)
    requires m != map[]
    ensures 3 * |m.Keys - Below(m, LastIrreversible(m))| > 2 * |m|
  {
    LibAtLeast(m, LastIrreversible(m));
    var low := Below(m, LastIrreversible(m));
    assert low <= m.Keys && |m.Keys| == |m|;
    assert m.Keys == (m.Keys - low) + low;
  }

  /** One confirmation less, on an 8-bit counter. */
  function Dec(x: nat): nat { if x == 0 then 255 else x - 1 }

  /** The counters once the next block has its own; at most `MAX_TRACKED` are kept. */
  function Tracked(s: State): seq<nat> {
    (if |s.counts| < MAX_TRACKED then s.counts else s.counts[1..]) + [Required(s) % 256]
  }

  /**
   * At most 1024 counters are kept. They are bytes: a block starts with what
   * it needs if that is below 256, and a counter of zero wraps around.
   */
  lemma CountersAreBytes(s: State, x: nat)
    ensures |s.counts| < 1024 ==> |Tracked(s)| == |s.counts| + 1 && s.counts <= Tracked(s)
    ensures |s.counts| == 1024 ==> |Tracked(s)| == 1024 && s.counts[1..] <= Tracked(s)
    ensures var t := Tracked(s);
            |t| > 0 && t[|t| - 1] < 256
            && (|s.active| < 383 ==> t[|t| - 1] == |s.active| * 2 / 3 + 1) && (|s.active| == 383 ==> t[|t| - 1] == 0)
    ensures x < 256 ==> Dec(x) == (x + 255) % 256
  {
  }

  /** The latest of the last `d` counters that needs just one more confirmation, or -1. */
  ghost function Hit(t: seq<nat>, d: nat): (i: int)
    ensures -1 <= i < |t|
    ensures i >= 0 ==> t[i] == 1 && |t| - d <= i
    ensures forall j :: 0 <= j < |t| && |t| - d <= j && i < j ==> t[j] != 1
  {
    if t == [] || d == 0 then -1
    else if t[|t| - 1] == 1 then |t| - 1
    else Hit(t[..|t| - 1], d - 1)
  }

  /** The counters after the last `d` of them are confirmed; a counter that is used up takes all earlier ones with it. */
  ghost function Confirmed(t: seq<nat>, d: nat): (c: seq<nat>)
    ensures |c| == |t| - (Hit(t, d) + 1)
  {
    seq<nat>(|t| - (Hit(t, d) + 1), j requires 0 <= j < |t| - (Hit(t, d) + 1) => Counter(t, d, Hit(t, d) + 1 + j))
  }

  ghost function Counter(t: seq<nat>, d: nat, k: nat): nat
    requires k < |t|
  {
    if k >= |t| - d then Dec(t[k]) else t[k]
  }

  /** The block that becomes proposed as irreversible, if any. */
  ghost function ProposedBy(t: seq<nat>, d: nat, blockNum: nat, proposed: nat): nat {
    if Hit(t, d) >= 0 then (blockNum - (|t| - 1 - Hit(t, d))) % WORD32 else proposed
  }

  lemma HitIs(t: seq<nat>, d: nat, i: int)
    requires -1 <= i < |t| && (i >= 0 ==> t[i] == 1 && |t| - d <= i)
    requires forall j :: 0 <= j < |t| && |t| - d <= j && i < j ==> t[j] != 1
    ensures Hit(t, d) == i
  {
  }

  /** The counters behind `i` are decremented, and none of them was used up by that. */
  ghost predicate Decremented(t: seq<nat>, counts: seq<nat>, i: int) {
    && -1 <= i < |counts| == |t|
    && (forall k :: 0 <= k < |t| ==> counts[k] == if k > i then Dec(t[k]) else t[k])
    && (forall k :: i < k < |t| ==> t[k] != 1)
  }

  lemma NoneDecremented(t: seq<nat>)
    ensures Decremented(t, t, |t| - 1)
  {
  }

  lemma DecrementAt(t: seq<nat>, counts: seq<nat>, i: nat)
    requires Decremented(t, counts, i)
    ensures Dec(counts[i]) == 0 <==> t[i] == 1
    ensures t[i] != 1 ==> Decremented(t, counts[i := Dec(counts[i])], i - 1)
  {
  }

  /** What the loop leaves when it stops at a counter that is used up, or behind the last one to confirm. */
  lemma UsedUp(t: seq<nat>, counts: seq<nat>, d: nat, i: nat)
    requires Decremented(t, counts, i) && t[i] == 1 && |t| - d <= i
    ensures Hit(t, d) == i && Confirmed(t, d) == counts[i + 1..]
  {
    HitIs(t, d, i);
    hide Hit;
    forall j | 0 <= j < |t| - (i + 1)
      ensures Confirmed(t, d)[j] == counts[i + 1..][j]
    {
      assert Confirmed(t, d)[j] == Counter(t, d, i + 1 + j);
    }
  }

  lemma NoneUsedUp(t: seq<nat>, counts: seq<nat>, d: nat, i: int)
    requires Decremented(t, counts, i) && (i == -1 || i == |t| - 1 - d) && |t| - 1 - i <= d
    ensures Hit(t, d) == -1 && Confirmed(t, d) == counts
  {
    HitIs(t, d, -1);
    hide Hit;
    forall j | 0 <= j < |t|
      ensures Confirmed(t, d)[j] == counts[j]
    {
      assert Confirmed(t, d)[j] == Counter(t, d, j);
    }
  }

  method ConfirmBlocks(t: seq<nat>, d: nat, blockNum: nat, proposed: nat) returns (counts: seq<nat>, p: nat)
    ensures counts == Confirmed(t, d) && p == ProposedBy(t, d, blockNum, proposed)
  {
    hide Hit, Confirmed, Decremented, Dec;
    counts, p := t, proposed;
    var i, toConfirm := |counts| - 1, d;
    NoneDecremented(t);
    while i >= 0 && toConfirm > 0
      invariant -1 <= i < |counts| == |t| && 0 <= toConfirm <= d && d - toConfirm == |t| - 1 - i && p == proposed
      invariant Decremented(t, counts, i)
      decreases i
    {
      DecrementAt(t, counts, i);
      ghost var before := counts;
      counts := counts[i := Dec(counts[i])];
      if counts[i] == 0 {
        UsedUp(t, before, d, i);
        assert before[i + 1..] == counts[i + 1..];
        p := (blockNum - (|counts| - 1 - i)) % WORD32;
        counts := if i == |counts| - 1 then [] else counts[i + 1..];
        return;
      }
      i, toConfirm := i - 1, toConfirm - 1;
    }
    NoneUsedUp(t, counts, d, i);
  }

  /** A producer may not confirm again what it confirmed with its last block; the bound is computed in 32 bits. */
  predicate MayConfirm(s: State, h: Header)
    requires s.active != []
  {
    var p := Scheduled(s, h.slot);
    p in s.lastProduced ==> s.lastProduced[p] < (s.blockNum + 1 - h.confirmed) % WORD32
  }

  ghost function NextLib(s: State, h: Header): nat
    requires s.active != []
  {
    LastIrreversible(Implications(s, Scheduled(s, h.slot)))
  }

  /** The pending schedule becomes active once the block that proposed it is irreversible. */
  ghost predicate Promotes(s: State, h: Header)
    requires s.active != []
  {
    s.pending != [] && NextLib(s, h) >= s.pendingLib
  }

  ghost predicate CanExtend(s: State, h: Header) {
    && s.active != [] && h.slot > s.slot && MayConfirm(s, h)
    && (h.schedule.Some? ==> !Promotes(s, h) && s.pending == [])
  }

  /** A record carried over to a new schedule: `value` for the current producer, the old entry or else `lib` for others. */
  function Carried(names: seq<Name>, before: map<Name, nat>, p: Name, value: nat, lib: nat): map<Name, nat> {
    map q | q in names :: if q == p then value else if q in before then before[q] else lib
  }

  ghost function Next(s: State, h: Header): State
    requires s.active != []
  {
    var p, n, lib := Scheduled(s, h.slot), s.blockNum + 1, NextLib(s, h);
    var promoted := Promotes(s, h);
    State(n, h.slot,
          ProposedBy(Tracked(s), h.confirmed + 1, n, s.proposed), lib,
          if promoted then s.pending else s.active,
          (if promoted then Carried(s.pending, s.lastProduced, p, n, lib) else s.lastProduced)[p := n],
          if promoted then Carried(s.pending, s.implied, p, s.proposed, lib) else s.implied[p := s.proposed],
          Confirmed(Tracked(s), h.confirmed + 1),
          if h.schedule.Some? then h.schedule.value else if promoted then [] else s.pending,
          if h.schedule.Some? then n else s.pendingLib)
  }

  /** The selection that the source leaves to the standard library. */
  method CalcLastIrreversible(m: map<Name, nat>) returns (lib: nat)
    ensures lib == LastIrreversible(m)
  {
    if |m| == 0 { return 0; }
    var k := (|m| - 1) / 3;
    KthExists(m, k);
    var v: nat :| v in m.Values && IsKth(m, k, v);
    KthAtLeast(m, k, v, LastIrreversible(m));
    KthAtLeast(m, k, LastIrreversible(m), v);
    KthAtLeast(m, k, v, v);
    KthAtLeast(m, k, LastIrreversible(m), LastIrreversible(m));
    lib := v;
  }

  method CarryOver(names: seq<Name>, before: map<Name, nat>, p: Name, value: nat, lib: nat) returns (m: map<Name, nat>)
    ensures m == Carried(names, before, p, value, lib)
  {
    m := map[];
    var i := 0;
    while i < |names|
      invariant i <= |names| && m == Carried(names[..i], before, p, value, lib)
    {
      assert names[..i + 1] == names[..i] + [names[i]];
      m := m[names[i] := if names[i] == p then value else if names[i] in before then before[names[i]] else lib];
      i := i + 1;
    }
    assert names[..i] == names;
  }

  datatype Error = NotInFuture | DoubleConfirm | ScheduleRefused
  datatype Result = Ok(state: State) | Err(error: Error)

  method NextState(s: State, h: Header) returns (r: Result)
    requires s.active != []
    ensures r.Ok? <==> CanExtend(s, h)
    ensures r.Ok? ==> r.state == Next(s, h)
    ensures r == Err(NotInFuture) <==> h.slot <= s.slot
    ensures r == Err(DoubleConfirm) <==>
            && h.slot > s.slot && Scheduled(s, h.slot) in s.lastProduced
            && s.lastProduced[Scheduled(s, h.slot)] >= (s.blockNum + 1 - h.confirmed) % 0x1_0000_0000
    ensures r == Err(ScheduleRefused) ==> h.schedule.Some? && s.pending != []
    ensures r.Ok? && h.schedule.Some? ==> s.pending == []
  {
    hide Confirmed, ProposedBy, Tracked, LastIrreversible, Implications, Carried, Scheduled;
    if h.slot <= s.slot { return Err(NotInFuture); }
    var p := Scheduled(s, h.slot);
    var n := s.blockNum + 1;
    if p in s.lastProduced && s.lastProduced[p] >= (n - h.confirmed) % WORD32 { return Err(DoubleConfirm); }
    var counts, proposed := ConfirmBlocks(Tracked(s), h.confirmed + 1, n, s.proposed);
    var lib := CalcLastIrreversible(Implications(s, p));
    var active, lastProduced, implied := s.active, s.lastProduced, s.implied;
    var promoted := s.pending != [] && lib >= s.pendingLib;
    if promoted {
      active := s.pending;
      lastProduced := CarryOver(s.pending, s.lastProduced, p, n, lib);
      implied := CarryOver(s.pending, s.implied, p, s.proposed, lib);
    } else {
      implied := implied[p := s.proposed];
    }
    lastProduced := lastProduced[p := n];
    if h.schedule.Some? && (promoted || s.pending != []) { return Err(ScheduleRefused); }
    var pending := if promoted then [] else s.pending;
    r := Ok(State(n, h.slot, proposed, lib, active, lastProduced, implied, counts,
                  if h.schedule.Some? then h.schedule.value else pending,
                  if h.schedule.Some? then n else s.pendingLib));
  }
}
