/** Whole runs of header states: who confirmed what, and what a proposed irreversible block rests on. */
module DposRuns {
  import opened Dpos
  import opened Lists

  /** What a block contributes: its producer, how far back it confirms, and how many confirmations it needs itself. */
  datatype Made = Made(producer: Name, confirmed: nat, required: nat)

  /** The blocks of a history that confirm block `k`, and their producers. */
  ghost function Confirming(hist: seq<Made>, k: nat): (js: set<nat>)
    ensures forall j :: j in js ==> k <= j < |hist|
  {
    set j: nat | k <= j < |hist| && j - hist[j].confirmed <= k
  }

  ghost function ProducersOf(hist: seq<Made>, js: set<nat>): set<Name>
    requires forall j :: j in js ==> j < |hist|
  {
    set j | j in js :: hist[j].producer
  }

  ghost function Confirmers(hist: seq<Made>, k: nat): set<Name> {
    ProducersOf(hist, Confirming(hist, k))
  }

  lemma ConfirmingGrows(hist: seq<Made>, b: Made, k: nat)
    requires k <= |hist|
    ensures Confirming(hist + [b], k) == Confirming(hist, k) + if |hist| - b.confirmed <= k then {|hist|} else {}
    ensures |Confirming(hist + [b], k)| == |Confirming(hist, k)| + if |hist| - b.confirmed <= k then 1 else 0
  {
    var more := hist + [b];
    assert forall j: nat :: j < |hist| ==> more[j] == hist[j];
    assert |hist| !in Confirming(hist, k);
  }

  /** No producer confirms a block twice: its blocks confirm disjoint ranges. */
  ghost predicate DisjointRanges(hist: seq<Made>) {
    forall i, j :: 0 <= i < j < |hist| && hist[i].producer == hist[j].producer ==> i < j - hist[j].confirmed
  }

  /** Then every confirmation comes from another producer. */
  lemma DistinctConfirmers(hist: seq<Made>, k: nat)
    requires DisjointRanges(hist)
    ensures |Confirmers(hist, k)| == |Confirming(hist, k)|
  {
    var js := Confirming(hist, k);
    forall i, j | i in js && j in js && i != j
      ensures hist[i].producer != hist[j].producer
    {
    }
    AsManyProducers(hist, js);
  }

  ghost predicate AllDistinct(hist: seq<Made>, js: set<nat>)
    requires forall j :: j in js ==> j < |hist|
  {
    forall i, j :: i in js && j in js && i != j ==> hist[i].producer != hist[j].producer
  }

  lemma {:induction false} AsManyProducers(hist: seq<Made>, js: set<nat>)
    requires forall j :: j in js ==> j < |hist|
    requires AllDistinct(hist, js)
    ensures |ProducersOf(hist, js)| == |js|
  {
    if js != {} {
      var i :| i in js;
      var rest := js - {i};
      AsManyProducers(hist, rest);
      assert js == rest + {i};
      assert ProducersOf(hist, js) == ProducersOf(hist, rest) + {hist[i].producer};
      assert hist[i].producer !in ProducersOf(hist, rest);
    }
  }

  lemma {:induction false} ProducersAtMost(hist: seq<Made>, js: set<nat>)
    requires forall j :: j in js ==> j < |hist|
    ensures |ProducersOf(hist, js)| <= |js|
  {
    if js != {} {
      var i :| i in js;
      var rest := js - {i};
      ProducersAtMost(hist, rest);
      assert js == rest + {i};
      assert ProducersOf(hist, js) == ProducersOf(hist, rest) + {hist[i].producer};
    }
  }

  /** Some blocks have as many producers as there are blocks exactly if these are distinct. */
  lemma AsManyProducersIff(hist: seq<Made>, js: set<nat>)
    requires forall j :: j in js ==> j < |hist|
    ensures |ProducersOf(hist, js)| >= |js| <==> AllDistinct(hist, js)
  {
    if AllDistinct(hist, js) {
      AsManyProducers(hist, js);
    } else {
      var i, j :| i in js && j in js && i != j && hist[i].producer == hist[j].producer;
      ProducersAtMost(hist, js - {i});
      assert j in js - {i};
      assert ProducersOf(hist, js) == ProducersOf(hist, js - {i});
    }
  }

  /** What is known about every producer: its last block, or, once forgotten, a bound that the next schedule will use. */
  ghost predicate Records(base: nat, hist: seq<Made>, s: State) {
    forall k :: 0 <= k < |hist| ==>
      var p := hist[k].producer;
      && (p in s.lastProduced ==> base + 1 + k <= s.lastProduced[p])
      && (p !in s.lastProduced ==> p !in s.active && (s.pending != [] ==> base + 1 + k <= s.pendingLib))
  }

  /** A counter holds the confirmations that its block still needs. */
  ghost predicate Counting(hist: seq<Made>, counts: seq<nat>) {
    && |counts| <= |hist|
    && forall i :: 0 <= i < |counts| ==> Counts(hist, |hist| - |counts| + i, counts[i])
  }

  ghost predicate Counts(hist: seq<Made>, k: nat, count: nat)
    requires k < |hist|
  {
    count >= 1 && count + |Confirming(hist, k)| == hist[k].required
  }

  /** The proposed block lies before all tracked ones and has its confirmations, if it is part of the history. */
  ghost predicate Backed(base: nat, hist: seq<Made>, s: State) {
    && s.proposed <= base + |hist| - |s.counts|
    && (|s.counts| < MAX_TRACKED ==> base + |hist| - |s.counts| == if s.proposed > base then s.proposed else base)
    && (s.proposed > base ==> |Confirming(hist, s.proposed - base - 1)| >= hist[s.proposed - base - 1].required)
  }

  ghost predicate Sized(s: State) {
    0 < |s.active| <= MAX_PRODUCERS && |s.pending| <= MAX_PRODUCERS && |s.counts| <= MAX_TRACKED
  }

  ghost predicate Inv(base: nat, hist: seq<Made>, s: State) {
    && Sized(s) && s.blockNum == base + |hist|
    && Records(base, hist, s) && Counting(hist, s.counts) && Backed(base, hist, s)
  }

  /** A header that the state accepts, within the width of its fields and the size of schedules. */
  ghost predicate Fits(s: State, h: Header) {
    && CanExtend(s, h)
    && h.confirmed < WORD16 && s.blockNum + 1 < WORD32
    && (h.schedule.Some? ==> |h.schedule.value| <= MAX_PRODUCERS)
  }

  ghost function MadeBy(s: State, h: Header): Made
    requires s.active != []
  {
    Made(Scheduled(s, h.slot), h.confirmed, Required(s))
  }

  /** A header that confirms more blocks than there are, by a producer of an earlier block. */
  ghost predicate Repeats(hist: seq<Made>, s: State, h: Header)
    requires s.active != []
  {
    h.confirmed > s.blockNum + 1 && exists k :: 0 <= k < |hist| && hist[k].producer == Scheduled(s, h.slot)
  }

  /** Unless the header is such a one, its producer has confirmed none of the blocks that it confirms. */
  lemma NewConfirmer(base: nat, hist: seq<Made>, s: State, h: Header, k: nat)
    requires Inv(base, hist, s) && Fits(s, h) && !Repeats(hist, s, h)
    requires k < |hist| && hist[k].producer == Scheduled(s, h.slot)
    ensures k < |hist| - h.confirmed
  {
    hide Counting, Backed;
    assert h.confirmed <= s.blockNum + 1;
    InWord(s.blockNum + 1 - h.confirmed);
  }

  /** An accepted header keeps the ranges disjoint exactly if it is not such a one. */
  lemma KeepsDisjointIff(base: nat, hist: seq<Made>, s: State, h: Header)
    requires Inv(base, hist, s) && Fits(s, h)
    ensures DisjointRanges(hist + [MadeBy(s, h)]) <==> DisjointRanges(hist) && !Repeats(hist, s, h)
  {
    hide Records, Counting, Backed, CanExtend;
    var b := MadeBy(s, h);
    var more := hist + [b];
    assert forall j :: 0 <= j < |hist| ==> more[j] == hist[j];
    if DisjointRanges(hist) && !Repeats(hist, s, h) {
      forall i, j | 0 <= i < j < |more| && more[i].producer == more[j].producer
        ensures i < j - more[j].confirmed
      {
        if j == |hist| {
          NewConfirmer(base, hist, s, h, i);
        }
      }
    } else if DisjointRanges(hist) {
      var k :| 0 <= k < |hist| && hist[k].producer == Scheduled(s, h.slot);
      assert more[k].producer == more[|hist|].producer && !(k < |hist| - more[|hist|].confirmed);
    } else {
      var i, j :| 0 <= i < j < |hist| && hist[i].producer == hist[j].producer && !(i < j - hist[j].confirmed);
      assert more[i] == hist[i] && more[j] == hist[j];
    }
  }

  lemma KeepsRecords(base: nat, hist: seq<Made>, s: State, h: Header)
    requires Inv(base, hist, s) && Fits(s, h)
    ensures Records(base, hist + [MadeBy(s, h)], Next(s, h))
  {
    hide Confirmed, ProposedBy, Tracked, LastIrreversible, Implications, Counting, Backed;
    var hist', s' := hist + [MadeBy(s, h)], Next(s, h);
    forall k | 0 <= k < |hist'|
      ensures var p := hist'[k].producer;
              && (p in s'.lastProduced ==> base + 1 + k <= s'.lastProduced[p])
              && (p !in s'.lastProduced ==> p !in s'.active && (s'.pending != [] ==> base + 1 + k <= s'.pendingLib))
    {
      if k < |hist| {
        assert hist'[k] == hist[k];
      }
    }
  }

  /** Where the tracked counters stand once the next block is added. */
  lemma TrackedCounts(base: nat, hist: seq<Made>, s: State, h: Header, i: nat)
    requires Inv(base, hist, s) && Fits(s, h) && i < |Tracked(s)|
    ensures var t, hist' := Tracked(s), hist + [MadeBy(s, h)];
            var k := |hist'| - |t| + i;
            && |t| <= |hist'| && t[i] >= 1
            && hist'[k].required - |Confirming(hist', k)| == if i >= |t| - (h.confirmed + 1) then t[i] - 1 else t[i]
  {
    hide Records, Backed, Confirming, CanExtend, Scheduled, Counting;
    var t, b := Tracked(s), MadeBy(s, h);
    var k := |hist| + 1 - |t| + i;
    CountingLength(hist, s.counts);
    ConfirmingGrows(hist, b, k);
    if i == |t| - 1 {
      NoneConfirming(hist);
    } else {
      var o := if |s.counts| < MAX_TRACKED then i else i + 1;
      assert t[i] == s.counts[o] && k == |hist| - |s.counts| + o;
      CountAt(hist, s.counts, o);
    }
  }

  lemma CountingLength(hist: seq<Made>, counts: seq<nat>)
    requires Counting(hist, counts)
    ensures |counts| <= |hist|
  {
  }

  lemma NoneConfirming(hist: seq<Made>)
    ensures |Confirming(hist, |hist|)| == 0
  {
    assert Confirming(hist, |hist|) == {};
  }

  lemma CountAt(hist: seq<Made>, counts: seq<nat>, i: nat)
    requires Counting(hist, counts) && i < |counts|
    ensures |counts| <= |hist|
    ensures counts[i] >= 1 && counts[i] + |Confirming(hist, |hist| - |counts| + i)| == hist[|hist| - |counts| + i].required
  {
    assert Counts(hist, |hist| - |counts| + i, counts[i]);
  }

  lemma KeepsCounting(base: nat, hist: seq<Made>, s: State, h: Header)
    requires Inv(base, hist, s) && Fits(s, h)
    ensures Counting(hist + [MadeBy(s, h)], Next(s, h).counts)
    ensures |Next(s, h).counts| <= MAX_TRACKED
  {
    hide Records, Backed, Hit, Confirming, Confirmed, Tracked, CanExtend, Scheduled, LastIrreversible, Implications, Carried, ProposedBy;
    var t, d, hist' := Tracked(s), h.confirmed + 1, hist + [MadeBy(s, h)];
    var counts := Confirmed(t, d);
    TrackedLength(base, hist, s);
    forall i | 0 <= i < |counts|
      ensures Counts(hist', |hist'| - |counts| + i, counts[i])
    {
      var j := Hit(t, d) + 1 + i;
      TrackedCounts(base, hist, s, h, j);
      ConfirmedAt(t, d, i);
      assert |hist'| - |t| + j == |hist'| - |counts| + i;
    }
  }

  lemma ConfirmedAt(t: seq<nat>, d: nat, i: nat)
    requires i < |Confirmed(t, d)|
    ensures var j := Hit(t, d) + 1 + i;
            j < |t| && Confirmed(t, d)[i] == (if j >= |t| - d then Dec(t[j]) else t[j]) && (j >= |t| - d ==> t[j] != 1)
  {
    hide Hit;
    assert Confirmed(t, d)[i] == Counter(t, d, Hit(t, d) + 1 + i);
  }

  lemma KeepsBacked(base: nat, hist: seq<Made>, s: State, h: Header)
    requires Inv(base, hist, s) && Fits(s, h)
    ensures Backed(base, hist + [MadeBy(s, h)], Next(s, h))
    ensures Next(s, h).proposed >= s.proposed
  {
    hide Records, Hit, Confirming, Counting, Tracked, Confirmed, LastIrreversible, Implications, Carried, Scheduled;
    var t, d := Tracked(s), h.confirmed + 1;
    TrackedLength(base, hist, s);
    if Hit(t, d) >= 0 {
      TrackedCounts(base, hist, s, h, Hit(t, d));
      InWord(s.blockNum + 1 - (|t| - 1 - Hit(t, d)));
    } else {
      KeepsProposed(base, hist, s, h);
    }
  }

  lemma KeepsProposed(base: nat, hist: seq<Made>, s: State, h: Header)
    requires Inv(base, hist, s) && Fits(s, h) && Hit(Tracked(s), h.confirmed + 1) < 0
    ensures Backed(base, hist + [MadeBy(s, h)], Next(s, h)) && Next(s, h).proposed == s.proposed
  {
    hide Records, Hit, Confirming, Counting, Tracked, Confirmed, LastIrreversible, Implications, Carried, Scheduled;
    TrackedLength(base, hist, s);
    if s.proposed > base {
      ConfirmingGrows(hist, MadeBy(s, h), s.proposed - base - 1);
      assert (hist + [MadeBy(s, h)])[s.proposed - base - 1] == hist[s.proposed - base - 1];
    }
  }

  lemma InWord(x: int)
    requires 0 <= x < WORD32
    ensures x % WORD32 == x
  {
  }

  lemma TrackedLength(base: nat, hist: seq<Made>, s: State)
    requires Inv(base, hist, s)
    ensures 0 < |Tracked(s)| <= |hist| + 1 && |Tracked(s)| <= MAX_TRACKED
    ensures |Tracked(s)| == if |s.counts| < MAX_TRACKED then |s.counts| + 1 else MAX_TRACKED
  {
  }

  /** Every accepted header keeps the invariant. */
  lemma StepKeepsInv(base: nat, hist: seq<Made>, s: State, h: Header)
    requires Inv(base, hist, s) && Fits(s, h)
    ensures Inv(base, hist + [MadeBy(s, h)], Next(s, h))
  {
    KeepsRecords(base, hist, s, h);
    KeepsCounting(base, hist, s, h);
    KeepsBacked(base, hist, s, h);
    hide Records, Counting, Backed, Confirmed, ProposedBy, Tracked, LastIrreversible;
  }

  /** A state with no blocks behind it, such as the one made from the genesis configuration. */
  ghost predicate Fresh(s: State) {
    && Sized(s) && s.counts == [] && s.lastProduced == map[] && s.implied == map[]
    && s.lib == 0 && s.proposed <= s.blockNum
  }

  /** A run: states and the headers between them. */
  ghost predicate Run(states: seq<State>, hs: seq<Header>) {
    |states| == |hs| + 1 && forall i :: 0 <= i < |hs| ==> StepAt(states, hs, i)
  }

  ghost predicate StepAt(states: seq<State>, hs: seq<Header>, i: nat)
    requires i < |hs| && |states| == |hs| + 1
  {
    Fits(states[i], hs[i]) && states[i + 1] == Next(states[i], hs[i])
  }

  ghost function Blocks(states: seq<State>, hs: seq<Header>, n: nat): (hist: seq<Made>)
    requires Run(states, hs) && n <= |hs|
    ensures |hist| == n
  {
    if n == 0 then [] else
      assert StepAt(states, hs, n - 1);
      Blocks(states, hs, n - 1) + [MadeBy(states[n - 1], hs[n - 1])]
  }

  lemma {:induction false} RunInv(states: seq<State>, hs: seq<Header>, n: nat)
    requires Run(states, hs) && Fresh(states[0]) && n <= |hs|
    ensures Inv(states[0].blockNum, Blocks(states, hs, n), states[n])
  {
    hide Next, Fits, MadeBy;
    if n > 0 {
      RunInv(states, hs, n - 1);
      assert StepAt(states, hs, n - 1);
      StepKeepsInv(states[0].blockNum, Blocks(states, hs, n - 1), states[n - 1], hs[n - 1]);
    }
  }

  /** Header `i` of a run confirms more blocks than there are, and its producer has made an earlier one. */
  ghost predicate RepeatsAt(states: seq<State>, hs: seq<Header>, i: nat)
    requires Run(states, hs) && i < |hs|
  {
    assert StepAt(states, hs, i);
    Repeats(Blocks(states, hs, i), states[i], hs[i])
  }

  /** In every run, across schedule changes: no producer confirms a block twice if and only if there is no such header. */
  lemma {:induction false} NoDoubleConfirmationIff(states: seq<State>, hs: seq<Header>, n: nat)
    requires Run(states, hs) && Fresh(states[0]) && n <= |hs|
    ensures DisjointRanges(Blocks(states, hs, n)) <==> forall i: nat :: i < n ==> !RepeatsAt(states, hs, i)
  {
    hide Next, MadeBy, DisjointRanges, Inv, Repeats;
    if n == 0 {
      NoBlocksDisjoint();
    } else {
      var m := n - 1;
      NoDoubleConfirmationIff(states, hs, m);
      RunInv(states, hs, m);
      assert StepAt(states, hs, m);
      KeepsDisjointIff(states[0].blockNum, Blocks(states, hs, m), states[m], hs[m]);
      assert RepeatsAt(states, hs, m) <==> Repeats(Blocks(states, hs, m), states[m], hs[m]);
      assert (forall i: nat :: i < n ==> !RepeatsAt(states, hs, i)) <==>
             (forall i: nat :: i < m ==> !RepeatsAt(states, hs, i)) && !RepeatsAt(states, hs, m);
    }
  }

  lemma NoBlocksDisjoint()
    ensures DisjointRanges([])
  {
  }

  /**
   * In every run, a proposed irreversible block is confirmed by two thirds
   * plus one of its schedule's number of blocks; these are of distinct
   * producers if no producer confirms twice.
   */
  lemma ProposedHasQuorum(states: seq<State>, hs: seq<Header>)
    requires Run(states, hs) && Fresh(states[0]) && states[|hs|].proposed > states[0].blockNum
    ensures var k := states[|hs|].proposed - states[0].blockNum - 1;
            var hist := Blocks(states, hs, |hs|);
            && k < |hs|
            && |Confirming(hist, k)| >= |states[k].active| * 2 / 3 + 1
            && (DisjointRanges(hist) ==> |Confirmers(hist, k)| >= |states[k].active| * 2 / 3 + 1)
  {
    hide Confirming, Next, DisjointRanges;
    RunInv(states, hs, |hs|);
    var k := states[|hs|].proposed - states[0].blockNum - 1;
    BlockAt(states, hs, k, |hs|);
    if DisjointRanges(Blocks(states, hs, |hs|)) {
      DistinctConfirmers(Blocks(states, hs, |hs|), k);
    }
  }

  lemma {:induction false} BlockAt(states: seq<State>, hs: seq<Header>, k: nat, n: nat)
    requires Run(states, hs) && k < n <= |hs|
    ensures states[k].active != [] && Blocks(states, hs, n)[k] == MadeBy(states[k], hs[k])
    decreases n
  {
    hide Next;
    assert StepAt(states, hs, k);
    if k < n - 1 {
      BlockAt(states, hs, k, n - 1);
    }
  }

  /** Header `j` confirms more blocks than there are, and its producer has confirmed block `k` before. */
  ghost predicate ConfirmsAgain(states: seq<State>, hs: seq<Header>, k: nat, j: nat)
    requires Run(states, hs) && j < |hs|
  {
    assert StepAt(states, hs, j);
    hs[j].confirmed > states[j].blockNum + 1 && Scheduled(states[j], hs[j].slot) in Confirmers(Blocks(states, hs, j), k)
  }

  /** Confirmations of a longer history, from those of a shorter one. */
  lemma ConfirmingBefore(states: seq<State>, hs: seq<Header>, k: nat, i: nat, j: nat, n: nat)
    requires Run(states, hs) && i < j <= n <= |hs|
    ensures Blocks(states, hs, j)[i] == Blocks(states, hs, n)[i]
    ensures i in Confirming(Blocks(states, hs, j), k) <==> i in Confirming(Blocks(states, hs, n), k)
  {
    BlockAt(states, hs, i, j);
    BlockAt(states, hs, i, n);
    hide Run, Blocks, MadeBy;
  }

  lemma AgainIsTwice(states: seq<State>, hs: seq<Header>, k: nat, j: nat, n: nat)
    requires Run(states, hs) && Fresh(states[0]) && k <= j < n <= |hs| && ConfirmsAgain(states, hs, k, j)
    ensures !AllDistinct(Blocks(states, hs, n), Confirming(Blocks(states, hs, n), k))
  {
    var hist := Blocks(states, hs, n);
    RunInv(states, hs, j);
    BlockAt(states, hs, j, n);
    hide Run, Inv, Fresh, Blocks, Scheduled;
    var i :| i in Confirming(Blocks(states, hs, j), k) && Blocks(states, hs, j)[i].producer == Scheduled(states[j], hs[j].slot);
    ConfirmingBefore(states, hs, k, i, j, n);
    assert states[j].blockNum >= j by { RunNumber(states, hs, j); }
    assert j in Confirming(hist, k) && i in Confirming(hist, k) && i != j;
  }

  lemma RunNumber(states: seq<State>, hs: seq<Header>, j: nat)
    requires Run(states, hs) && Fresh(states[0]) && j <= |hs|
    ensures states[j].blockNum == states[0].blockNum + j
  {
    RunInv(states, hs, j);
  }

  lemma TwiceIsAgain(states: seq<State>, hs: seq<Header>, k: nat, i: nat, j: nat, n: nat)
    requires Run(states, hs) && Fresh(states[0]) && i < j < n <= |hs|
    requires var hist := Blocks(states, hs, n);
             i in Confirming(hist, k) && j in Confirming(hist, k) && hist[i].producer == hist[j].producer
    ensures ConfirmsAgain(states, hs, k, j)
  {
    assert StepAt(states, hs, j);
    RunInv(states, hs, j);
    BlockAt(states, hs, j, n);
    ConfirmingBefore(states, hs, k, i, j, n);
    hide Run, Inv, Fresh, Blocks, Scheduled, Fits, Next;
    if hs[j].confirmed <= states[j].blockNum + 1 {
      NewConfirmer(states[0].blockNum, Blocks(states, hs, j), states[j], hs[j], i);
    }
  }

  /** The block that a header makes proposed has just the confirmations it needs. */
  lemma ProposedNow(base: nat, hist: seq<Made>, s: State, h: Header)
    requires Inv(base, hist, s) && Fits(s, h) && Next(s, h).proposed != s.proposed
    ensures base < Next(s, h).proposed <= base + |hist| + 1
    ensures var k := Next(s, h).proposed - base - 1;
            |Confirming(hist + [MadeBy(s, h)], k)| == (hist + [MadeBy(s, h)])[k].required
  {
    hide Records, Hit, Confirming, Counting, Tracked, Confirmed, LastIrreversible, Implications, Carried, Scheduled;
    var t, d := Tracked(s), h.confirmed + 1;
    TrackedLength(base, hist, s);
    TrackedCounts(base, hist, s, h, Hit(t, d));
    InWord(s.blockNum + 1 - (|t| - 1 - Hit(t, d)));
  }

  lemma ProposedNowInRun(states: seq<State>, hs: seq<Header>, m: nat)
    requires Run(states, hs) && Fresh(states[0]) && m < |hs| && states[m + 1].proposed != states[m].proposed
    ensures states[0].blockNum < states[m + 1].proposed <= states[0].blockNum + m + 1
    ensures var k := states[m + 1].proposed - states[0].blockNum - 1;
            |Confirming(Blocks(states, hs, m + 1), k)| == |states[k].active| * 2 / 3 + 1
  {
    hide Next, Fits, MadeBy, Inv, Fresh, Confirming;
    assert StepAt(states, hs, m);
    RunInv(states, hs, m);
    ProposedNow(states[0].blockNum, Blocks(states, hs, m), states[m], hs[m]);
    RequiredAt(states, hs, states[m + 1].proposed - states[0].blockNum - 1, m + 1);
  }

  /** A block needs the confirmations of two thirds plus one of the producers it was made under. */
  lemma RequiredAt(states: seq<State>, hs: seq<Header>, k: nat, n: nat)
    requires Run(states, hs) && k < n <= |hs|
    ensures Blocks(states, hs, n)[k].required == |states[k].active| * 2 / 3 + 1
  {
    BlockAt(states, hs, k, n);
    hide Run, Blocks, Scheduled;
  }

  /**
   * In every run, a block that becomes proposed has a quorum of distinct
   * producers if and only if no header from that block on has confirmed it
   * again by confirming more blocks than there are.
   */
  lemma QuorumIff(states: seq<State>, hs: seq<Header>, m: nat)
    requires Run(states, hs) && Fresh(states[0]) && m < |hs| && states[m + 1].proposed != states[m].proposed
    ensures states[0].blockNum < states[m + 1].proposed <= states[0].blockNum + m + 1
    ensures var k, n := states[m + 1].proposed - states[0].blockNum - 1, m + 1;
            var hist := Blocks(states, hs, n);
            && |Confirming(hist, k)| == |states[k].active| * 2 / 3 + 1
            && (|Confirmers(hist, k)| >= |states[k].active| * 2 / 3 + 1 <==>
                forall j: nat :: k <= j < n ==> !ConfirmsAgain(states, hs, k, j))
  {
    ProposedNowInRun(states, hs, m);
    QuorumAt(states, hs, states[m + 1].proposed - states[0].blockNum - 1, m + 1);
    hide *;
  }

  lemma QuorumAt(states: seq<State>, hs: seq<Header>, k: nat, n: nat)
    requires Run(states, hs) && Fresh(states[0]) && k < n <= |hs|
    requires |Confirming(Blocks(states, hs, n), k)| == |states[k].active| * 2 / 3 + 1
    ensures |Confirmers(Blocks(states, hs, n), k)| >= |states[k].active| * 2 / 3 + 1 <==>
            forall j: nat :: k <= j < n ==> !ConfirmsAgain(states, hs, k, j)
  {
    hide Run, Fresh, Blocks, ConfirmsAgain, Confirming, ProducersOf, AllDistinct;
    var hist := Blocks(states, hs, n);
    AsManyProducersIff(hist, Confirming(hist, k));
    DistinctIff(states, hs, k, n);
  }

  lemma DistinctIff(states: seq<State>, hs: seq<Header>, k: nat, n: nat)
    requires Run(states, hs) && Fresh(states[0]) && k < n <= |hs|
    ensures var hist := Blocks(states, hs, n);
            AllDistinct(hist, Confirming(hist, k)) <==> forall j: nat :: k <= j < n ==> !ConfirmsAgain(states, hs, k, j)
  {
    hide Run, Fresh, Blocks, ConfirmsAgain, Confirming;
    var hist := Blocks(states, hs, n);
    var js := Confirming(hist, k);
    if j: nat :| k <= j < n && ConfirmsAgain(states, hs, k, j) {
      AgainIsTwice(states, hs, k, j, n);
    } else if !AllDistinct(hist, js) {
      var i: nat, j: nat :| i in js && j in js && i != j && hist[i].producer == hist[j].producer;
      if i < j {
        TwiceIsAgain(states, hs, k, i, j, n);
      } else {
        TwiceIsAgain(states, hs, k, j, i, n);
      }
    }
  }

  /** In every run, a block among the last 1024 that has its confirmations is proposed, or a later one is. */
  lemma ConfirmedIsProposed(states: seq<State>, hs: seq<Header>, k: nat)
    requires Run(states, hs) && Fresh(states[0]) && k < |hs| <= k + 1024
    requires |Confirming(Blocks(states, hs, |hs|), k)| >= |states[k].active| * 2 / 3 + 1
    ensures states[0].blockNum + 1 + k <= states[|hs|].proposed
  {
    RunInv(states, hs, |hs|);
    RequiredAt(states, hs, k, |hs|);
    var hist, s := Blocks(states, hs, |hs|), states[|hs|];
    hide Run, Blocks, Records, Confirming, Counting;
    CountingLength(hist, s.counts);
    if |hist| - |s.counts| <= k {
      CountAt(hist, s.counts, k - (|hist| - |s.counts|));
    }
  }

  /** The proposed irreversible block never goes back. */
  lemma {:induction false} ProposedNeverFalls(states: seq<State>, hs: seq<Header>, i: nat, j: nat)
    requires Run(states, hs) && Fresh(states[0]) && i <= j <= |hs|
    ensures states[i].proposed <= states[j].proposed
    decreases j
  {
    hide Next, Inv;
    if i < j {
      ProposedNeverFalls(states, hs, i, j - 1);
      RunInv(states, hs, j - 1);
      assert StepAt(states, hs, j - 1);
      KeepsBacked(states[0].blockNum, Blocks(states, hs, j - 1), states[j - 1], hs[j - 1]);
    }
  }
}
