/** Runs from the genesis state that show where the promises of irreversibility end. */
module DposExamples {
  import opened Dpos
  import opened DposRuns
  import opened Lists

  ghost predicate Leads(s: State, h: Header, next: State) {
    Fits(s, h) && next == Next(s, h)
  }

  /** The counters from one block to the next: `hit` is the one that is used up, -1 if none is. */
  ghost predicate CountsTo(counts: seq<nat>, required: nat, d: nat, hit: int, next: seq<nat>) {
    var t := counts + [required];
    && -1 <= hit < |t| && (hit >= 0 ==> t[hit] == 1 && |t| - d <= hit)
    && (forall j :: 0 <= j < |t| && |t| - d <= j && hit < j ==> t[j] != 1)
    && |next| == |t| - (hit + 1)
    && (forall j :: 0 <= j < |next| ==> next[j] == Counter(t, d, hit + 1 + j))
  }

  lemma CountsToIs(counts: seq<nat>, required: nat, d: nat, hit: int, next: seq<nat>)
    requires CountsTo(counts, required, d, hit, next)
    ensures Hit(counts + [required], d) == hit && Confirmed(counts + [required], d) == next
  {
    var t := counts + [required];
    HitIs(t, d, hit);
    hide Hit;
    assert Confirmed(t, d) == next;
  }

  lemma OneMore(counts: seq<nat>, required: nat)
    requires required > 1
    ensures CountsTo(counts, required, 1, -1, counts + [required - 1])
  {
  }

  /** Three headers in a row that confirm everything: the third uses up the first counter. */
  lemma ThreeConfirm(a: nat, b: nat, c: nat)
    requires a >= 1 && b >= 2 && c >= 3
    ensures CountsTo([], 3, a, -1, [2]) && CountsTo([2], 3, b, -1, [1, 2]) && CountsTo([1, 2], 3, c, 0, [1, 2])
  {
  }

  /** The least of up to three implied numbers, and the second of four. */
  lemma LeastIs(m: map<Name, nat>, p: Name)
    requires |m| <= 3 && p in m && forall q :: q in m ==> m[p] <= m[q]
    ensures LastIrreversible(m) == m[p]
  {
    assert Below(m, m[p]) == {} && p in Below(m, m[p] + 1);
    LibAtLeast(m, m[p]);
    LibAtLeast(m, m[p] + 1);
  }

  lemma SecondIs(m: map<Name, nat>, p: Name, q: Name)
    requires |m| == 4 && p in m && q in m && p != q && m[p] <= m[q]
    requires forall r :: r in m && r != p ==> m[q] <= m[r]
    ensures LastIrreversible(m) == m[q]
  {
    assert Below(m, m[q]) <= {p} && {p, q} <= Below(m, m[q] + 1);
    SubsetSize(Below(m, m[q]), {p});
    SubsetSize({p, q}, Below(m, m[q] + 1));
    LibAtLeast(m, m[q]);
    LibAtLeast(m, m[q] + 1);
  }

  /** Producers 1 to 4, and one number for each. */
  const FOUR: seq<Name> := [1, 2, 3, 4]

  ghost function OfFour(v: seq<nat>): map<Name, nat>
    requires |v| == 4
  {
    map[1 := v[0], 2 := v[1], 3 := v[2], 4 := v[3]]
  }

  lemma OfFourParts(v: seq<nat>)
    requires |v| == 4
    ensures |OfFour(v)| == 4 && OfFour(v).Keys == {1, 2, 3, 4}
    ensures forall r :: r in OfFour(v) ==> 1 <= r <= 4 && OfFour(v)[r] == v[r - 1]
  {
    assert |OfFour(v)| == |OfFour(v).Keys|;
  }

  lemma PutOfFour(v: seq<nat>, p: Name, x: nat)
    requires |v| == 4 && 1 <= p <= 4
    ensures OfFour(v)[p := x] == OfFour(v[p - 1 := x]) && p in OfFour(v) && OfFour(v)[p] == v[p - 1]
  {
  }

  lemma ImpliedByFour(s: State, v: seq<nat>, p: Name)
    requires |v| == 4 && 1 <= p <= 4 && s.implied == OfFour(v)
    ensures Implications(s, p) == OfFour(v[p - 1 := s.proposed])
  {
  }

  /** The second of four numbers: one is not larger, the other ones are not smaller. */
  ghost predicate IsSecond(v: seq<nat>, least: nat, second: nat) {
    && |v| == 4 && least < 4 && second < 4 && least != second && v[least] <= v[second]
    && forall i :: 0 <= i < 4 && i != least ==> v[second] <= v[i]
  }

  lemma LibOfFour(v: seq<nat>, least: nat, second: nat)
    requires IsSecond(v, least, second)
    ensures LastIrreversible(OfFour(v)) == v[second]
  {
    hide OfFour;
    OfFourParts(v);
    SecondIs(OfFour(v), least + 1, second + 1);
  }

  /** A state under the four producers. */
  datatype FourState = FourState(num: nat, slot: nat, proposed: nat, lib: nat, produced: seq<nat>, implied: seq<nat>,
                                 counts: seq<nat>, pending: seq<Name>, pendingLib: nat) {
    ghost predicate Valid() {
      |produced| == 4 && |implied| == 4 && |counts| <= num < 1000
    }

    ghost function Whole(): State
      requires Valid()
    {
      State(num, slot, proposed, lib, FOUR, OfFour(produced), OfFour(implied), counts, pending, pendingLib)
    }
  }

  function Turn(h: Header): (p: Name)
    ensures 1 <= p <= 4
  {
    1 + (h.slot % 48) / 12
  }

  lemma TurnOfFour(s: State, slot: nat)
    requires s.active == FOUR
    ensures Scheduled(s, slot) == 1 + (slot % 48) / 12
  {
  }

  /** A header that promotes nothing, what it does to the counters and which number it makes irreversible. */
  ghost predicate Follows(s: FourState, h: Header, hit: int, least: nat, second: nat, next: FourState) {
    && s.Valid() && next.Valid() && h.slot > s.slot && h.confirmed < WORD16
    && s.produced[Turn(h) - 1] < (s.num + 1 - h.confirmed) % WORD32
    && (h.schedule.Some? ==> s.pending == [] && |h.schedule.value| <= MAX_PRODUCERS)
    && CountsTo(s.counts, 3, h.confirmed + 1, hit, next.counts)
    && IsSecond(Implied(s, h), least, second) && (s.pending != [] ==> Implied(s, h)[second] < s.pendingLib)
    && next == FourState(s.num + 1, h.slot, if hit >= 0 then s.num + 1 - (|s.counts| - hit) else s.proposed,
                         Implied(s, h)[second], s.produced[Turn(h) - 1 := s.num + 1], Implied(s, h), next.counts,
                         if h.schedule.Some? then h.schedule.value else s.pending,
                         if h.schedule.Some? then s.num + 1 else s.pendingLib)
  }

  ghost function Implied(s: FourState, h: Header): seq<nat>
    requires s.Valid()
  {
    s.implied[Turn(h) - 1 := s.proposed]
  }

  lemma CountsOf(w: State, required: nat, d: nat, hit: int, counts: seq<nat>)
    requires |w.counts| < MAX_TRACKED && |w.counts| <= w.blockNum && w.blockNum + 1 < WORD32 && Required(w) == required < 256
    requires CountsTo(w.counts, required, d, hit, counts)
    ensures Confirmed(Tracked(w), d) == counts && hit <= |w.counts|
    ensures ProposedBy(Tracked(w), d, w.blockNum + 1, w.proposed) ==
              if hit >= 0 then w.blockNum + 1 - (|w.counts| - hit) else w.proposed
  {
    hide Hit, Confirmed;
    assert Tracked(w) == w.counts + [required];
    CountsToIs(w.counts, required, d, hit, counts);
  }

  lemma LibOf(w: State, h: Header, v: seq<nat>, least: nat, second: nat)
    requires w.active == FOUR && |v| == 4 && w.implied == OfFour(v) && IsSecond(v[Turn(h) - 1 := w.proposed], least, second)
    ensures Scheduled(w, h.slot) == Turn(h) && NextLib(w, h) == v[Turn(h) - 1 := w.proposed][second]
  {
    hide LastIrreversible, OfFour, Implications, Scheduled;
    TurnOfFour(w, h.slot);
    ImpliedByFour(w, v, Turn(h));
    LibOfFour(v[Turn(h) - 1 := w.proposed], least, second);
  }

  lemma FourStep(s: FourState, h: Header, hit: int, least: nat, second: nat, next: FourState)
    requires Follows(s, h, hit, least, second, next)
    ensures s.Valid() && next.Valid() && Leads(s.Whole(), h, next.Whole())
  {
    hide CountsTo, Confirmed, ProposedBy, Tracked, Scheduled, NextLib, OfFour, IsSecond;
    var w, p := s.Whole(), Turn(h);
    LibOf(w, h, s.implied, least, second);
    CountsOf(w, 3, h.confirmed + 1, hit, next.counts);
    PutOfFour(s.produced, p, s.num + 1);
    PutOfFour(s.implied, p, s.proposed);
  }

  /** The genesis state, with one producer whose schedule is also pending, and the change to four producers. */
  const GENESIS := State(1, 0, 0, 0, [1], map[], map[], [], [1], 0)
  const ALONE_1 := State(2, 1, 2, 0, [1], map[1 := 2], map[1 := 0], [], [], 0)
  const ALONE_2 := State(3, 2, 3, 2, [1], map[1 := 3], map[1 := 2], [], FOUR, 3)
  const START := FourState(4, 3, 4, 3, [4, 3, 3, 3], [3, 3, 3, 3], [], [], 3)

  lemma OneCounter()
    ensures Hit([1], 1) == 0 && Confirmed([1], 1) == []
  {
  }

  lemma LibAlone(v: nat)
    ensures LastIrreversible(map[1 := v]) == v
  {
    var m: map<Name, nat> := map[1 := v];
    assert |m| == |m.Keys| && m.Keys == {1};
    LeastIs(m, 1);
  }

  lemma FirstStep()
    ensures Leads(GENESIS, Header(1, 0, None), ALONE_1)
  {
    hide LastIrreversible, Hit, Confirmed;
    OneCounter();
    assert Tracked(GENESIS) == [1] && Scheduled(GENESIS, 1) == 1;
    assert Implications(GENESIS, 1) == map[];
    NoneImplied();
  }

  lemma NoneImplied()
    ensures LastIrreversible(map[]) == 0
  {
  }

  lemma SecondStep()
    ensures Leads(ALONE_1, Header(2, 0, Some(FOUR)), ALONE_2)
  {
    hide LastIrreversible, Hit, Confirmed;
    OneCounter();
    assert Tracked(ALONE_1) == [1] && Scheduled(ALONE_1, 2) == 1;
    LibAlone(2);
    assert Implications(ALONE_1, 1) == map[1 := 2];
  }

  lemma ThirdStep()
    ensures START.Valid() && Leads(ALONE_2, Header(3, 0, None), START.Whole())
  {
    hide LastIrreversible, Hit, Confirmed, Carried;
    OneCounter();
    assert Tracked(ALONE_2) == [1] && Scheduled(ALONE_2, 3) == 1;
    LibAlone(3);
    assert Implications(ALONE_2, 1) == map[1 := 3];
    CarriedToFour(3, 4);
    CarriedToFour(2, 3);
    PutOfFour([4, 3, 3, 3], 1, 4);
  }

  /** Newcomers enter with the irreversible number, which is 3. */
  lemma CarriedToFour(before: nat, value: nat)
    ensures Carried(FOUR, map[1 := before], 1, value, 3) == OfFour([value, 3, 3, 3])
  {
  }

  lemma RunOfThree(a: State, b: State, c: State, d: State, h1: Header, h2: Header, h3: Header)
    requires Leads(a, h1, b) && Leads(b, h2, c) && Leads(c, h3, d)
    ensures Run([a, b, c, d], [h1, h2, h3])
  {
    hide Fits, Next;
    var states, hs := [a, b, c, d], [h1, h2, h3];
    forall i: nat | i < |hs|
      ensures StepAt(states, hs, i)
    {
    }
  }

  /** One run behind another. */
  lemma Joined(states: seq<State>, hs: seq<Header>, more: seq<State>, gs: seq<Header>)
    requires Run(states, hs) && Run(more, gs) && states[|hs|] == more[0]
    ensures Run(states + more[1..], hs + gs)
  {
    hide Fits, Next;
    var all, fs := states + more[1..], hs + gs;
    forall i: nat | i < |fs|
      ensures StepAt(all, fs, i)
    {
      if i < |hs| {
        assert StepAt(states, hs, i);
      } else {
        assert StepAt(more, gs, i - |hs|);
      }
    }
  }

  lemma OneMoreHeader(states: seq<State>, hs: seq<Header>, h: Header, next: State)
    requires Run(states, hs) && Leads(states[|hs|], h, next)
    ensures Run(states + [next], hs + [h])
  {
    hide Fits, Next;
    var all, fs := states + [next], hs + [h];
    forall i: nat | i < |fs|
      ensures StepAt(all, fs, i)
    {
      if i < |hs| {
        assert StepAt(states, hs, i);
      }
    }
  }

  /** The run up to four producers, and three headers behind it. */
  const EARLY: seq<Header> := [Header(1, 0, None), Header(2, 0, Some(FOUR)), Header(3, 0, None)]

  ghost function SixStates(a: FourState, b: FourState, c: FourState): seq<State>
    requires START.Valid() && a.Valid() && b.Valid() && c.Valid()
  {
    [GENESIS, ALONE_1, ALONE_2, START.Whole()] + [a.Whole(), b.Whole(), c.Whole()]
  }

  lemma SixHeaders(a: FourState, b: FourState, c: FourState, h1: Header, h2: Header, h3: Header)
    requires START.Valid() && a.Valid() && b.Valid() && c.Valid()
    requires Leads(START.Whole(), h1, a.Whole()) && Leads(a.Whole(), h2, b.Whole()) && Leads(b.Whole(), h3, c.Whole())
    ensures Run(SixStates(a, b, c), EARLY + [h1, h2, h3])
  {
    hide Leads, Run, FourState.Whole;
    FirstStep();
    SecondStep();
    ThirdStep();
    RunOfThree(GENESIS, ALONE_1, ALONE_2, START.Whole(), Header(1, 0, None), Header(2, 0, Some(FOUR)), Header(3, 0, None));
    RunOfThree(START.Whole(), a.Whole(), b.Whole(), c.Whole(), h1, h2, h3);
    var early, late := [GENESIS, ALONE_1, ALONE_2, START.Whole()], [START.Whole(), a.Whole(), b.Whole(), c.Whole()];
    Joined(early, EARLY, late, [h1, h2, h3]);
    assert late[1..] == [a.Whole(), b.Whole(), c.Whole()];
  }

  /** Its history: three blocks of one producer, then the blocks of four. */
  const EARLY_BLOCKS: seq<Made> := [Made(1, 0, 1), Made(1, 0, 1), Made(1, 0, 1)]

  ghost predicate LateBlocks(states: seq<State>, hs: seq<Header>, late: seq<Made>)
    requires |states| == |hs| + 1 == 4 + |late|
  {
    forall i: nat :: i < |late| ==> LateAt(states, hs, late, i)
  }

  ghost predicate LateAt(states: seq<State>, hs: seq<Header>, late: seq<Made>, i: nat)
    requires |states| == |hs| + 1 == 4 + |late| && i < |late|
  {
    states[i + 3].active == FOUR && late[i] == Made(Turn(hs[i + 3]), hs[i + 3].confirmed, 3)
  }

  lemma HistoryIs(states: seq<State>, hs: seq<Header>, late: seq<Made>)
    requires Run(states, hs) && |hs| == 3 + |late| && LateBlocks(states, hs, late)
    requires states[..3] == [GENESIS, ALONE_1, ALONE_2] && hs[..3] == EARLY
    ensures Blocks(states, hs, |hs|) == EARLY_BLOCKS + late
  {
    hide StepAt, Blocks, LateBlocks, MadeBy;
    var hist := Blocks(states, hs, |hs|);
    forall i: nat | i < |hs|
      ensures hist[i] == (EARLY_BLOCKS + late)[i]
    {
      BlockAt(states, hs, i, |hs|);
      if i < 3 {
        AloneMade(i);
        assert states[i] == states[..3][i] && hs[i] == hs[..3][i];
      } else {
        LateMade(states, hs, late, i - 3);
      }
    }
  }

  lemma LateMade(states: seq<State>, hs: seq<Header>, late: seq<Made>, i: nat)
    requires |states| == |hs| + 1 == 4 + |late| && LateBlocks(states, hs, late) && i < |late|
    ensures states[i + 3].active == FOUR && MadeBy(states[i + 3], hs[i + 3]) == late[i]
  {
    hide Scheduled;
    assert LateAt(states, hs, late, i);
    TurnOfFour(states[i + 3], hs[i + 3].slot);
  }

  lemma AloneMade(i: nat)
    requires i < 3
    ensures MadeBy([GENESIS, ALONE_1, ALONE_2][i], EARLY[i]) == EARLY_BLOCKS[i]
  {
  }

  /** Three blocks of one producer, each confirming 65535 blocks. */
  const OVER_1 := FourState(5, 4, 4, 3, [5, 3, 3, 3], [4, 3, 3, 3], [2], [], 3)
  const OVER_2 := FourState(6, 5, 4, 3, [6, 3, 3, 3], [4, 3, 3, 3], [1, 2], [], 3)
  const OVER_3 := FourState(7, 6, 5, 3, [7, 3, 3, 3], [4, 3, 3, 3], [1, 2], [], 3)

  lemma OverStep1()
    ensures Follows(START, Header(4, 65535, None), -1, 1, 2, OVER_1)
  {
    ThreeConfirm(65536, 65536, 65536);
    hide CountsTo;
  }

  lemma OverStep2()
    ensures Follows(OVER_1, Header(5, 65535, None), -1, 1, 2, OVER_2)
  {
    ThreeConfirm(65536, 65536, 65536);
    hide CountsTo;
  }

  lemma OverStep3()
    ensures Follows(OVER_2, Header(6, 65535, None), 0, 1, 2, OVER_3)
  {
    ThreeConfirm(65536, 65536, 65536);
    hide CountsTo;
  }

  /** The check against double confirmation lets this run through, and block 5 is proposed with one confirmer instead of three. */
  lemma OneProducerProposes() returns (states: seq<State>, hs: seq<Header>)
    ensures Run(states, hs) && states[0] == GENESIS && Fresh(states[0]) && |hs| == 6 && states[6].proposed == 5
    ensures var hist := Blocks(states, hs, |hs|);
            hist[3].required == 3 && !DisjointRanges(hist) && Confirmers(hist, 3) == {1}
  {
    hide Leads, Run, Confirmers, DisjointRanges, Blocks, Follows, OfFour;
    OverStep1();
    OverStep2();
    OverStep3();
    FourStep(START, Header(4, 65535, None), -1, 1, 2, OVER_1);
    FourStep(OVER_1, Header(5, 65535, None), -1, 1, 2, OVER_2);
    FourStep(OVER_2, Header(6, 65535, None), 0, 1, 2, OVER_3);
    SixHeaders(OVER_1, OVER_2, OVER_3, Header(4, 65535, None), Header(5, 65535, None), Header(6, 65535, None));
    states := SixStates(OVER_1, OVER_2, OVER_3);
    hs := EARLY + [Header(4, 65535, None), Header(5, 65535, None), Header(6, 65535, None)];
    HistoryIs(states, hs, [Made(1, 65535, 3), Made(1, 65535, 3), Made(1, 65535, 3)]);
    OneConfirmer(Blocks(states, hs, 6));
  }

  lemma OneConfirmer(hist: seq<Made>)
    requires hist == EARLY_BLOCKS + [Made(1, 65535, 3), Made(1, 65535, 3), Made(1, 65535, 3)]
    ensures !DisjointRanges(hist) && Confirmers(hist, 3) == {1}
  {
    assert hist[3].producer == hist[4].producer && !(3 < 4 - hist[4].confirmed);
    assert 3 in Confirming(hist, 3);
  }

  /** Producers 1, 2 and 3 confirm block 5, whose header proposes that 1 and 9 take over. */
  const RISE_1 := FourState(5, 4, 4, 3, [5, 3, 3, 3], [4, 3, 3, 3], [2], [1, 9], 5)
  const RISE_2 := FourState(6, 12, 4, 3, [5, 6, 3, 3], [4, 4, 3, 3], [1, 2], [1, 9], 5)
  const RISE_3 := FourState(7, 24, 5, 4, [5, 6, 7, 3], [4, 4, 4, 3], [1, 2], [1, 9], 5)

  lemma RiseStep1()
    ensures Follows(START, Header(4, 0, Some([1, 9])), -1, 1, 2, RISE_1)
  {
    ThreeConfirm(1, 2, 3);
    hide CountsTo;
  }

  lemma RiseStep2()
    ensures Follows(RISE_1, Header(12, 1, None), -1, 2, 3, RISE_2)
  {
    ThreeConfirm(1, 2, 3);
    hide CountsTo;
  }

  lemma RiseStep3()
    ensures Follows(RISE_2, Header(24, 2, None), 0, 3, 0, RISE_3)
  {
    ThreeConfirm(1, 2, 3);
    hide CountsTo;
  }

  lemma MainRun() returns (states: seq<State>, hs: seq<Header>)
    ensures RISE_3.Valid() && Run(states, hs) && |hs| == 6 && states[6] == RISE_3.Whole()
    ensures START.Valid() && states[..4] == [GENESIS, ALONE_1, ALONE_2, START.Whole()]
    ensures Blocks(states, hs, 6) == EARLY_BLOCKS + [Made(1, 0, 3), Made(2, 1, 3), Made(3, 2, 3)]
  {
    hide Leads, Run, Blocks, Follows, OfFour;
    RiseStep1();
    RiseStep2();
    RiseStep3();
    FourStep(START, Header(4, 0, Some([1, 9])), -1, 1, 2, RISE_1);
    FourStep(RISE_1, Header(12, 1, None), -1, 2, 3, RISE_2);
    FourStep(RISE_2, Header(24, 2, None), 0, 3, 0, RISE_3);
    SixHeaders(RISE_1, RISE_2, RISE_3, Header(4, 0, Some([1, 9])), Header(12, 1, None), Header(24, 2, None));
    states := SixStates(RISE_1, RISE_2, RISE_3);
    hs := EARLY + [Header(4, 0, Some([1, 9])), Header(12, 1, None), Header(24, 2, None)];
    HistoryIs(states, hs, [Made(1, 0, 3), Made(2, 1, 3), Made(3, 2, 3)]);
  }

  /** Producers 4, 2 and 3 go on without 1 until block 5 is irreversible, and the schedule changes. */
  const RISE_4 := FourState(8, 36, 5, 4, [5, 6, 7, 8], [4, 4, 4, 5], [1, 2, 2], [1, 9], 5)
  const RISE_5 := FourState(9, 60, 5, 4, [5, 9, 7, 8], [4, 5, 4, 5], [1, 2, 2, 2], [1, 9], 5)

  lemma RiseStep4()
    ensures Follows(RISE_3, Header(36, 0, None), -1, 0, 1, RISE_4)
  {
    OneMore([1, 2], 3);
    assert [1, 2] + [2] == [1, 2, 2];
    hide CountsTo;
  }

  lemma RiseStep5()
    ensures Follows(RISE_4, Header(60, 0, None), -1, 0, 2, RISE_5)
  {
    OneMore([1, 2, 2], 3);
    assert [1, 2, 2] + [2] == [1, 2, 2, 2];
    hide CountsTo;
  }

  lemma TakeOver() returns (s: State)
    ensures RISE_5.Valid() && Leads(RISE_5.Whole(), Header(72, 0, None), s)
    ensures s.lib == 5 && s.blockNum == 10 && s.slot == 72 && s.proposed == 5 && s.active == [1, 9] && s.pending == []
    ensures s.implied == map[1 := 4, 9 := 5] && s.lastProduced == map[1 := 5, 9 := 5][3 := 10]
  {
    hide Confirmed, ProposedBy, Tracked, Scheduled, NextLib, Carried, OfFour;
    var w, h := RISE_5.Whole(), Header(72, 0, None);
    assert [4, 5, 4, 5][2 := 5] == [4, 5, 5, 5] && Turn(h) == 3;
    LibOf(w, h, [4, 5, 4, 5], 0, 1);
    OneMore([1, 2, 2, 2], 3);
    CountsOf(w, 3, 1, -1, [1, 2, 2, 2] + [2]);
    PutOfFour([5, 9, 7, 8], 3, 10);
    CarriedFromFour([4, 5, 4, 5], 5);
    CarriedFromFour([5, 9, 7, 8], 10);
    s := Next(w, h);
  }

  lemma CarriedFromFour(v: seq<nat>, value: nat)
    requires |v| == 4
    ensures Carried([1, 9], OfFour(v), 3, value, 5) == map[1 := v[0], 9 := 5]
  {
  }

  lemma NewcomerFollows(s: State) returns (next: State)
    requires s.lib == 5 && s.blockNum == 10 && s.slot == 72 && s.proposed == 5 && s.active == [1, 9] && s.pending == []
    requires s.implied == map[1 := 4, 9 := 5] && s.lastProduced == map[1 := 5, 9 := 5][3 := 10]
    ensures Leads(s, Header(84, 0, None), next) && next.lib == 4
  {
    hide LastIrreversible, Confirmed, ProposedBy, Tracked;
    assert Scheduled(s, 84) == 9;
    LeastOfTwo();
    assert Implications(s, 9) == map[1 := 4, 9 := 5];
    next := Next(s, Header(84, 0, None));
  }

  lemma LeastOfTwo()
    ensures LastIrreversible(map[1 := 4, 9 := 5]) == 4
  {
    var m: map<Name, nat> := map[1 := 4, 9 := 5];
    assert |m| == |m.Keys| && m.Keys == {1, 9};
    LeastIs(m, 1);
  }

  /** In a run from the genesis state, the irreversible number falls from 5 to 4 after the schedule has changed. */
  lemma LibCanFall() returns (states: seq<State>, hs: seq<Header>)
    ensures Run(states, hs) && states[0] == GENESIS && Fresh(states[0]) && |hs| == 10
    ensures states[9].lib == 5 && states[10].lib == 4
  {
    hide Leads, StepAt, Blocks, Follows, OfFour, FourState.Whole;
    states, hs := MainRun();
    assert states[0] == states[..4][0];
    RiseStep4();
    RiseStep5();
    FourStep(RISE_3, Header(36, 0, None), -1, 0, 1, RISE_4);
    FourStep(RISE_4, Header(60, 0, None), -1, 0, 2, RISE_5);
    var s9 := TakeOver();
    RunOfThree(RISE_3.Whole(), RISE_4.Whole(), RISE_5.Whole(), s9, Header(36, 0, None), Header(60, 0, None), Header(72, 0, None));
    var more := [RISE_3.Whole(), RISE_4.Whole(), RISE_5.Whole(), s9];
    Joined(states, hs, more, [Header(36, 0, None), Header(60, 0, None), Header(72, 0, None)]);
    states, hs := states + more[1..], hs + [Header(36, 0, None), Header(60, 0, None), Header(72, 0, None)];
    var s10 := NewcomerFollows(s9);
    OneMoreHeader(states, hs, Header(84, 0, None), s10);
    states, hs := states + [s10], hs + [Header(84, 0, None)];
  }

  /** Another chain from the same state: producer 4 is alone for a while, then 1 and 2 join it. */
  const SIDE_1 := FourState(5, 36, 4, 3, [4, 3, 3, 5], [3, 3, 3, 4], [2], [], 3)
  const SIDE_2 := FourState(6, 37, 4, 3, [4, 3, 3, 6], [3, 3, 3, 4], [2, 2], [], 3)
  const SIDE_3 := FourState(7, 38, 4, 3, [4, 3, 3, 7], [3, 3, 3, 4], [2, 2, 2], [], 3)
  const SIDE_4 := FourState(8, 39, 4, 3, [4, 3, 3, 8], [3, 3, 3, 4], [2, 2, 2, 2], [], 3)
  const SIDE_5 := FourState(9, 40, 4, 3, [4, 3, 3, 9], [3, 3, 3, 4], [2, 2, 2, 2, 2], [], 3)
  const SIDE_6 := FourState(10, 48, 4, 3, [10, 3, 3, 9], [4, 3, 3, 4], [2, 2, 2, 2, 1, 2], [], 3)
  const SIDE_7 := FourState(11, 60, 9, 4, [10, 11, 3, 9], [4, 4, 3, 4], [1, 2], [], 3)

  lemma SideStep1()
    ensures Follows(START, Header(36, 0, None), -1, 0, 1, SIDE_1)
  {
    ThreeConfirm(1, 2, 3);
    hide CountsTo;
  }

  lemma SideStep2()
    ensures Follows(SIDE_1, Header(37, 0, None), -1, 0, 1, SIDE_2)
  {
    OneMore([2], 3);
    assert [2] + [2] == [2, 2];
    hide CountsTo;
  }

  lemma SideStep3()
    ensures Follows(SIDE_2, Header(38, 0, None), -1, 0, 1, SIDE_3)
  {
    OneMore([2, 2], 3);
    assert [2, 2] + [2] == [2, 2, 2];
    hide CountsTo;
  }

  lemma SideStep4()
    ensures Follows(SIDE_3, Header(39, 0, None), -1, 0, 1, SIDE_4)
  {
    OneMore([2, 2, 2], 3);
    assert [2, 2, 2] + [2] == [2, 2, 2, 2];
    hide CountsTo;
  }

  lemma SideStep5()
    ensures Follows(SIDE_4, Header(40, 0, None), -1, 0, 1, SIDE_5)
  {
    OneMore([2, 2, 2, 2], 3);
    assert [2, 2, 2, 2] + [2] == [2, 2, 2, 2, 2];
    hide CountsTo;
  }

  lemma SideStep6()
    ensures Follows(SIDE_5, Header(48, 1, None), -1, 1, 2, SIDE_6)
  {
    LateCounts();
    hide CountsTo;
  }

  lemma SideStep7()
    ensures Follows(SIDE_6, Header(60, 2, None), 4, 2, 0, SIDE_7)
  {
    LateCounts();
    hide CountsTo;
  }

  lemma LateCounts()
    ensures CountsTo([2, 2, 2, 2, 2], 3, 2, -1, [2, 2, 2, 2, 1, 2])
    ensures CountsTo([2, 2, 2, 2, 1, 2], 3, 3, 4, [1, 2])
  {
  }

  lemma SideRun() returns (states: seq<State>, hs: seq<Header>)
    ensures SIDE_7.Valid() && Run(states, hs) && |hs| == 10 && states[10] == SIDE_7.Whole()
    ensures START.Valid() && states[..4] == [GENESIS, ALONE_1, ALONE_2, START.Whole()]
    ensures Blocks(states, hs, 10) == EARLY_BLOCKS + SIDE_BLOCKS
  {
    hide Leads, Run, Blocks, Follows, OfFour;
    SideStep1();
    SideStep2();
    SideStep3();
    FourStep(START, Header(36, 0, None), -1, 0, 1, SIDE_1);
    FourStep(SIDE_1, Header(37, 0, None), -1, 0, 1, SIDE_2);
    FourStep(SIDE_2, Header(38, 0, None), -1, 0, 1, SIDE_3);
    SixHeaders(SIDE_1, SIDE_2, SIDE_3, Header(36, 0, None), Header(37, 0, None), Header(38, 0, None));
    var early, es := SixStates(SIDE_1, SIDE_2, SIDE_3), EARLY + [Header(36, 0, None), Header(37, 0, None), Header(38, 0, None)];
    var more, gs := LateSideRun();
    Joined(early, es, more, gs);
    states, hs := early + more[1..], es + gs;
    HistoryIs(states, hs, SIDE_BLOCKS);
  }

  const SIDE_BLOCKS: seq<Made> := [Made(4, 0, 3), Made(4, 0, 3), Made(4, 0, 3), Made(4, 0, 3), Made(4, 0, 3), Made(1, 1, 3), Made(2, 2, 3)]

  lemma LateSideRun() returns (states: seq<State>, hs: seq<Header>)
    ensures SIDE_3.Valid() && SIDE_4.Valid() && SIDE_5.Valid() && SIDE_6.Valid() && SIDE_7.Valid() && Run(states, hs)
    ensures states == [SIDE_3.Whole(), SIDE_4.Whole(), SIDE_5.Whole(), SIDE_6.Whole()] + [SIDE_7.Whole()]
    ensures hs == [Header(39, 0, None), Header(40, 0, None), Header(48, 1, None)] + [Header(60, 2, None)]
  {
    hide Leads, Run, Follows, FourState.Whole;
    SideStep4();
    SideStep5();
    SideStep6();
    SideStep7();
    FourStep(SIDE_3, Header(39, 0, None), -1, 0, 1, SIDE_4);
    FourStep(SIDE_4, Header(40, 0, None), -1, 0, 1, SIDE_5);
    FourStep(SIDE_5, Header(48, 1, None), -1, 1, 2, SIDE_6);
    FourStep(SIDE_6, Header(60, 2, None), 4, 2, 0, SIDE_7);
    RunOfThree(SIDE_3.Whole(), SIDE_4.Whole(), SIDE_5.Whole(), SIDE_6.Whole(), Header(39, 0, None), Header(40, 0, None), Header(48, 1, None));
    states, hs := [SIDE_3.Whole(), SIDE_4.Whole(), SIDE_5.Whole(), SIDE_6.Whole()], [Header(39, 0, None), Header(40, 0, None), Header(48, 1, None)];
    OneMoreHeader(states, hs, Header(60, 2, None), SIDE_7.Whole());
    states, hs := states + [SIDE_7.Whole()], hs + [Header(60, 2, None)];
  }

  lemma NobodyTwice(a: seq<Made>, b: seq<Made>)
    requires a == EARLY_BLOCKS + [Made(1, 0, 3), Made(2, 1, 3), Made(3, 2, 3)] && b == EARLY_BLOCKS + SIDE_BLOCKS
    ensures DisjointRanges(a) && DisjointRanges(b)
    ensures forall k: nat :: k >= 3 ==> Confirmers(a, k) !! Confirmers(b, k)
  {
  }

  /**
   * Two chains that part behind state 3 come to propose blocks 5 and 9, though
   * no producer has confirmed a number behind that state on both.
   */
  lemma DifferentNumbersNeedNobody() returns (states: seq<State>, hs: seq<Header>, others: seq<State>, gs: seq<Header>)
    ensures Run(states, hs) && Run(others, gs) && states[0] == GENESIS && |hs| == 6 && |gs| == 10
    ensures states[..4] == others[..4] && states[6].proposed == 5 && others[10].proposed == 9
    ensures var a, b := Blocks(states, hs, 6), Blocks(others, gs, 10);
            && DisjointRanges(a) && DisjointRanges(b) && a[3].producer != b[3].producer
            && forall k: nat :: k >= 3 ==> Confirmers(a, k) !! Confirmers(b, k)
  {
    hide StepAt, Blocks, Confirmers, DisjointRanges;
    states, hs := MainRun();
    others, gs := SideRun();
    assert states[0] == states[..4][0];
    NobodyTwice(Blocks(states, hs, 6), Blocks(others, gs, 10));
  }
}
