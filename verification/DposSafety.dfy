/** What irreversibility promises: across forks, and along one chain. */
module DposSafety {
  import opened Dpos
  import opened DposRuns
  import opened Lists

  /** Two quorums of `all` that may also have other members. */
  lemma TwoQuorums(a: set<Name>, b: set<Name>, all: set<Name>)
    requires |a| >= |all| * 2 / 3 + 1 && |b| >= |all| * 2 / 3 + 1
    ensures 3 * (|a * b| + |(a + b) - all|) > |all|
  {
    var outside := (a + b) - all;
    SubsetSize(a + b, all + outside);
    assert |a + b| == |a| + |b| - |a * b|;
  }

  ghost function Producers(s: State): set<Name> { set p | p in s.active }

  /** A run whose schedule is settled from state `d` on: none is pending, and none is proposed. */
  ghost predicate SettledFrom(states: seq<State>, hs: seq<Header>, d: nat) {
    Run(states, hs) && d <= |hs| && states[d].pending == [] && forall i :: d <= i < |hs| ==> hs[i].schedule.None?
  }

  lemma {:induction false} SettledSchedule(states: seq<State>, hs: seq<Header>, d: nat, n: nat)
    requires SettledFrom(states, hs, d) && d <= n <= |hs|
    ensures states[n].active == states[d].active && states[n].pending == []
  {
    if n > d {
      SettledSchedule(states, hs, d, n - 1);
      assert StepAt(states, hs, n - 1);
    }
  }

  lemma SettledConfirmers(states: seq<State>, hs: seq<Header>, d: nat, k: nat)
    requires SettledFrom(states, hs, d) && d <= k
    ensures Confirmers(Blocks(states, hs, |hs|), k) <= Producers(states[d])
  {
    hide Next;
    var hist := Blocks(states, hs, |hs|);
    forall j | k <= j < |hist|
      ensures hist[j].producer in Producers(states[d])
    {
      BlockAt(states, hs, j, |hs|);
      SettledSchedule(states, hs, d, j);
    }
  }

  /** The index of the proposed block among the blocks of a run. */
  ghost function ProposedAt(states: seq<State>, hs: seq<Header>): (k: nat)
    requires Run(states, hs) && Fresh(states[0]) && states[|hs|].proposed > states[0].blockNum
    ensures k < |hs|
  {
    ProposedHasQuorum(states, hs);
    states[|hs|].proposed - states[0].blockNum - 1
  }

  /** Two runs propose blocks of the same number, made under the same schedule of distinct producers. */
  ghost predicate SameNumber(states: seq<State>, hs: seq<Header>, others: seq<State>, gs: seq<Header>) {
    && Run(states, hs) && Fresh(states[0]) && Run(others, gs) && Fresh(others[0])
    && states[0].blockNum == others[0].blockNum < states[|hs|].proposed == others[|gs|].proposed
    && var s, o := states[ProposedAt(states, hs)], others[ProposedAt(others, gs)];
       s.active == o.active && |Producers(s)| == |s.active|
  }

  /**
   * If no producer confirms twice within either run, the producers that have
   * confirmed the blocks of this number in both runs, together with those of
   * other schedules that have confirmed one, are more than a third.
   */
  lemma ConflictNeedsThird(states: seq<State>, hs: seq<Header>, others: seq<State>, gs: seq<Header>)
    requires SameNumber(states, hs, others, gs)
    requires DisjointRanges(Blocks(states, hs, |hs|)) && DisjointRanges(Blocks(others, gs, |gs|))
    ensures var k := ProposedAt(states, hs);
            var a, b := Confirmers(Blocks(states, hs, |hs|), k), Confirmers(Blocks(others, gs, |gs|), k);
            3 * (|a * b| + |(a + b) - Producers(states[k])|) > |states[k].active|
  {
    hide Confirmers, Next, Blocks, Producers, Fresh, DisjointRanges, StepAt;
    ProposedHasQuorum(states, hs);
    ProposedHasQuorum(others, gs);
    var k := ProposedAt(states, hs);
    TwoQuorums(Confirmers(Blocks(states, hs, |hs|), k), Confirmers(Blocks(others, gs, |gs|), k), Producers(states[k]));
  }

  /** Where the chains part under a settled schedule, more than a third of its producers have confirmed both. */
  lemma SettledConflict(states: seq<State>, hs: seq<Header>, others: seq<State>, gs: seq<Header>, d: nat)
    requires SameNumber(states, hs, others, gs)
    requires DisjointRanges(Blocks(states, hs, |hs|)) && DisjointRanges(Blocks(others, gs, |gs|))
    requires SettledFrom(states, hs, d) && SettledFrom(others, gs, d) && states[d].active == others[d].active
    requires d <= ProposedAt(states, hs)
    ensures var k := ProposedAt(states, hs);
            3 * |Confirmers(Blocks(states, hs, |hs|), k) * Confirmers(Blocks(others, gs, |gs|), k)| > |states[d].active|
  {
    hide Confirmers, Next, Blocks, Fresh, DisjointRanges, StepAt;
    var k := ProposedAt(states, hs);
    ConflictNeedsThird(states, hs, others, gs);
    SettledSchedule(states, hs, d, k);
    SettledConfirmers(states, hs, d, k);
    SettledConfirmers(others, gs, d, k);
    var a, b := Confirmers(Blocks(states, hs, |hs|), k), Confirmers(Blocks(others, gs, |gs|), k);
    assert (a + b) - Producers(states[k]) == {};
  }

  /** The order of the three numbers in every state, and what producers can have implied. */
  ghost predicate Ordered(s: State) {
    && s.lib <= s.proposed <= s.blockNum
    && forall p :: p in s.implied ==> s.implied[p] <= s.proposed
  }

  lemma LibWithinProposed(s: State, h: Header)
    requires s.active != [] && Ordered(s)
    ensures NextLib(s, h) <= s.proposed
  {
    var m := Implications(s, Scheduled(s, h.slot));
    if m != map[] {
      LibAtLeast(m, 0);
    }
  }

  lemma StepKeepsOrdered(base: nat, hist: seq<Made>, s: State, h: Header)
    requires Inv(base, hist, s) && Fits(s, h) && Ordered(s)
    ensures Ordered(Next(s, h))
  {
    StepKeepsInv(base, hist, s, h);
    KeepsBacked(base, hist, s, h);
    LibWithinProposed(s, h);
    hide Records, Counting, Confirmed, Tracked, ProposedBy, LastIrreversible, NextLib, Confirming, Scheduled;
  }

  /** In every run, the last irreversible block is at most the proposed one, which is at most the head. */
  lemma {:induction false} LibProposedHead(states: seq<State>, hs: seq<Header>, n: nat)
    requires Run(states, hs) && Fresh(states[0]) && n <= |hs|
    ensures Ordered(states[n])
  {
    hide Next, Inv;
    if n > 0 {
      LibProposedHead(states, hs, n - 1);
      RunInv(states, hs, n - 1);
      assert StepAt(states, hs, n - 1);
      StepKeepsOrdered(states[0].blockNum, Blocks(states, hs, n - 1), states[n - 1], hs[n - 1]);
    }
  }

  /** The last irreversible block does not fall with the next header exactly when few enough producers lag behind it. */
  lemma LibKeptIff(s: State, h: Header)
    requires s.active != []
    ensures Next(s, h).lib >= s.lib <==>
              s.lib == 0 || |Below(Implications(s, Scheduled(s, h.slot)), s.lib)| <= (|s.implied| - 1) / 3
  {
    var m := Implications(s, Scheduled(s, h.slot));
    assert |m| == |m.Keys| == |s.implied.Keys| == |s.implied|;
    if m != map[] {
      LibAtLeast(m, s.lib);
    }
  }

  /** A step that promotes nothing leaves a record whose number is at least the computed one, newcomers included. */
  lemma RecordKeepsLib(s: State, h: Header)
    requires s.active != [] && Ordered(s) && !Promotes(s, h)
    ensures var s' := Next(s, h);
            s'.implied != map[] && |Below(s'.implied, s'.lib)| <= (|s'.implied| - 1) / 3
  {
    var p, s' := Scheduled(s, h.slot), Next(s, h);
    LibWithinProposed(s, h);
    hide Confirmed, ProposedBy, Tracked, LastIrreversible, Scheduled, Implications;
    assert s'.implied == s.implied[p := s.proposed] && s'.lib == LastIrreversible(Implications(s, p));
    NewcomerAboveLib(s, p, s'.lib);
  }

  lemma NewcomerAboveLib(s: State, p: Name, lib: nat)
    requires lib == LastIrreversible(Implications(s, p)) <= s.proposed
    ensures var record := s.implied[p := s.proposed];
            record != map[] && |Below(record, lib)| <= (|record| - 1) / 3
  {
    hide LastIrreversible;
    var m, record := Implications(s, p), s.implied[p := s.proposed];
    assert p in record && |record| == |record.Keys| && |m| == |m.Keys|;
    SubsetSize(m.Keys, record.Keys);
    if m == map[] {
      NoneBelow(record);
      NoLib();
    } else {
      LibAtLeast(m, lib);
      assert Below(record, lib) == Below(m, lib);
    }
  }

  lemma NoneBelow(m: map<Name, nat>)
    ensures |Below(m, 0)| == 0
  {
    assert Below(m, 0) == {};
  }

  lemma NoLib()
    ensures LastIrreversible(map[]) == 0
  {
  }

  /** So the next header does not lower the number. */
  lemma LibKeptWithoutPromotion(s: State, h: Header, next: Header)
    requires s.active != [] && Ordered(s) && !Promotes(s, h)
    requires Ordered(Next(s, h))
    ensures Next(Next(s, h), next).lib >= Next(s, h).lib
  {
    var s' := Next(s, h);
    RecordKeepsLib(s, h);
    LibKeptIff(s', next);
    hide Next, LastIrreversible, Scheduled;
    var m := Implications(s', Scheduled(s', next.slot));
    assert Below(m, s'.lib) <= Below(s'.implied, s'.lib);
    SubsetSize(Below(m, s'.lib), Below(s'.implied, s'.lib));
  }

  /** In every run, the irreversible number falls only with the header behind one that changed the schedule. */
  lemma LibFallsOnlyAfterPromotion(states: seq<State>, hs: seq<Header>, i: nat)
    requires Run(states, hs) && Fresh(states[0]) && i < |hs| && states[i + 1].lib < states[i].lib
    ensures i > 0 && states[i - 1].active != [] && Promotes(states[i - 1], hs[i - 1])
  {
    hide Next, Ordered, Promotes;
    assert StepAt(states, hs, i);
    assert states[0].lib == 0;
    var before := i - 1;
    LibProposedHead(states, hs, before);
    LibProposedHead(states, hs, i);
    assert StepAt(states, hs, before);
    if !Promotes(states[before], hs[before]) {
      LibKeptWithoutPromotion(states[before], hs[before], hs[i]);
    }
  }

  /** The check against double confirmation, for a producer on record and fields of their width. */
  ghost predicate InRange(s: State, h: Header)
    requires s.active != []
  {
    var p := Scheduled(s, h.slot);
    p in s.lastProduced && s.lastProduced[p] <= s.blockNum < WORD32 && h.confirmed < WORD16
  }

  /** It keeps the confirmed range above the producer's last block exactly for headers that confirm no more blocks than there are. */
  lemma CheckIsExact(s: State, h: Header)
    requires s.active != [] && InRange(s, h)
    ensures (MayConfirm(s, h) ==> s.lastProduced[Scheduled(s, h.slot)] < s.blockNum + 1 - h.confirmed)
            <==> h.confirmed <= s.blockNum + 1
    ensures h.confirmed <= s.blockNum + 1 < 0x1_0000_0000 ==>
              (MayConfirm(s, h) <==> s.lastProduced[Scheduled(s, h.slot)] < s.blockNum + 1 - h.confirmed)
    ensures h.confirmed > s.blockNum + 1 ==> MayConfirm(s, h)
  {
    var d := s.blockNum + 1 - h.confirmed;
    assert 0 <= d < WORD32 ==> d % WORD32 == d;
    assert d == WORD32 ==> d % WORD32 == 0;
    assert d < 0 ==> d % WORD32 == d + WORD32;
  }

  /** Along every run, slots strictly ascend, and numbers by one. */
  lemma {:induction false} SlotsAscend(states: seq<State>, hs: seq<Header>, i: nat, j: nat)
    requires Run(states, hs) && i < j <= |hs|
    ensures states[i].slot < states[j].slot == hs[j - 1].slot && states[j].blockNum == states[i].blockNum + (j - i)
    decreases j
  {
    assert StepAt(states, hs, j - 1);
    if i < j - 1 {
      SlotsAscend(states, hs, i, j - 1);
    }
  }

  /** The current producer's records: its block, and what was proposed before it, unless it is not in the new schedule. */
  lemma RecordsOfProducer(s: State, h: Header)
    requires s.active != []
    ensures var s', p := Next(s, h), Scheduled(s, h.slot);
            && p in s'.lastProduced && s'.lastProduced[p] == s.blockNum + 1
            && (p in s'.implied <==> p in s'.active || !Promotes(s, h))
            && (p in s'.implied ==> s'.implied[p] == s.proposed)
    ensures !Promotes(s, h) ==> forall q :: q != Scheduled(s, h.slot) ==>
              && (q in Next(s, h).lastProduced <==> q in s.lastProduced) && (q in Next(s, h).implied <==> q in s.implied)
              && (q in s.lastProduced ==> Next(s, h).lastProduced[q] == s.lastProduced[q])
              && (q in s.implied ==> Next(s, h).implied[q] == s.implied[q])
  {
    hide Confirmed, ProposedBy, Tracked, NextLib, Scheduled;
  }

  /** With a new schedule, newcomers enter at the irreversible number, others keep their records, and the rest is forgotten. */
  lemma RecordsAfterPromotion(s: State, h: Header, q: Name)
    requires s.active != [] && Promotes(s, h) && q != Scheduled(s, h.slot)
    ensures var s' := Next(s, h);
            && (q in s'.lastProduced <==> q in s'.active) && (q in s'.implied <==> q in s'.active)
            && (q in s'.active ==>
                 && (q in s.lastProduced ==> s'.lastProduced[q] == s.lastProduced[q])
                 && (q in s.implied ==> s'.implied[q] == s.implied[q])
                 && (q !in s.lastProduced ==> s'.lastProduced[q] == s'.lib)
                 && (q !in s.implied ==> s'.implied[q] == s'.lib))
  {
    hide Confirmed, ProposedBy, Tracked, NextLib, Scheduled;
  }

  /** The pending schedule of a state: none, the one the run began with, or one that a header proposed, with its number. */
  ghost predicate PendingFrom(states: seq<State>, hs: seq<Header>, n: nat)
    requires Run(states, hs) && n <= |hs|
  {
    || states[n].pending == []
    || (states[n].pending == states[0].pending && states[n].pendingLib == states[0].pendingLib)
    || exists i: nat :: i < n && ProposedAtHeader(states, hs, i, states[n].pending, states[n].pendingLib)
  }

  ghost predicate ProposedAtHeader(states: seq<State>, hs: seq<Header>, i: nat, schedule: seq<Name>, num: nat)
    requires Run(states, hs) && i < |hs|
  {
    hs[i].schedule == Some(schedule) && states[i + 1].blockNum == num
  }

  lemma {:induction false} PendingIsFrom(states: seq<State>, hs: seq<Header>, n: nat)
    requires Run(states, hs) && n <= |hs|
    ensures PendingFrom(states, hs, n)
  {
    hide Confirmed, ProposedBy, Tracked, NextLib, Scheduled, Carried;
    if n > 0 {
      PendingIsFrom(states, hs, n - 1);
      assert StepAt(states, hs, n - 1);
      if hs[n - 1].schedule.Some? {
        assert ProposedAtHeader(states, hs, n - 1, states[n].pending, states[n].pendingLib);
      }
    }
  }

  /** In every run, a schedule becomes active only once the block that proposed it is irreversible. */
  lemma ScheduleNeedsIrreversibleBlock(states: seq<State>, hs: seq<Header>, n: nat)
    requires Run(states, hs) && n < |hs| && states[n + 1].active != states[n].active
    ensures states[n + 1].active == states[n].pending && states[n + 1].lib >= states[n].pendingLib
    ensures PendingFrom(states, hs, n)
    ensures hs[n].schedule.None? && states[n + 1].pending == []
  {
    hide Confirmed, ProposedBy, Tracked, NextLib, Scheduled, Carried;
    PendingIsFrom(states, hs, n);
    assert StepAt(states, hs, n);
  }

  /** In every run, a pending schedule is not replaced before it is active. */
  lemma PendingNotReplaced(states: seq<State>, hs: seq<Header>, n: nat)
    requires Run(states, hs) && n < |hs| && states[n].pending != []
    ensures || (states[n + 1].pending == states[n].pending && states[n + 1].pendingLib == states[n].pendingLib)
            || states[n + 1].active == states[n].pending
  {
    hide Confirmed, ProposedBy, Tracked, NextLib, Scheduled, Carried;
    assert StepAt(states, hs, n);
  }
}
