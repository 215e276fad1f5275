/** How many blocks a scan produces when the producers take turns: every full round gives each seat its twelve slots. */
module Rounds {
  import opened Arithmetic
  import opened Dpos
  import TestChains
  import opened Lists

  function Round(active: seq<Name>): nat { |active| * PRODUCER_REPETITIONS }

  function RoundRobin(active: seq<Name>): (schedule: nat -> Name)
    requires active != []
    ensures forall s: State, slot: nat :: s.active == active ==> Scheduled(s, slot) == schedule(slot)
  {
    (slot: nat) => IndexInSchedule(slot, |active|); active[(slot % (|active| * PRODUCER_REPETITIONS)) / PRODUCER_REPETITIONS]
  }

  /** The slots of `owners` among the `n` slots behind `start`. */
  ghost function Count(schedule: nat -> Name, owners: set<Name>, start: nat, n: nat): nat {
    |TestChains.Owned(schedule, owners, start, n)|
  }

  function One(schedule: nat -> Name, owners: set<Name>, slot: nat): nat {
    if schedule(slot) in owners then 1 else 0
  }

  /** How many seats of the schedule `owners` hold. */
  function Seats(active: seq<Name>, owners: set<Name>): nat {
    if active == [] then 0 else Seats(active[..|active| - 1], owners) + if active[|active| - 1] in owners then 1 else 0
  }

  lemma CountLast(schedule: nat -> Name, owners: set<Name>, start: nat, n: nat)
    ensures Count(schedule, owners, start, n + 1) == Count(schedule, owners, start, n) + One(schedule, owners, start + n + 1)
  {
  }

  lemma {:induction false} CountFirst(schedule: nat -> Name, owners: set<Name>, start: nat, n: nat)
    ensures Count(schedule, owners, start, n + 1) == One(schedule, owners, start + 1) + Count(schedule, owners, start + 1, n)
    decreases n
  {
    CountLast(schedule, owners, start, n);
    if n > 0 {
      CountFirst(schedule, owners, start, n - 1);
      CountLast(schedule, owners, start + 1, n - 1);
    }
  }

  lemma {:induction false} CountSplit(schedule: nat -> Name, owners: set<Name>, start: nat, m: nat, n: nat)
    ensures Count(schedule, owners, start, m + n) ==
            Count(schedule, owners, start, m) + Count(schedule, owners, start + m, n)
    decreases n
  {
    if n > 0 {
      CountSplit(schedule, owners, start, m, n - 1);
      CountLast(schedule, owners, start, m + n - 1);
      CountLast(schedule, owners, start + m, n - 1);
    }
  }

  lemma RemainderRepeats(a: nat, m: nat)
    requires m > 0
    ensures (a + m) % m == a % m
  {
    assert (a / m + 1) * m == (a / m) * m + m;
    RestIs(a + m, m, a / m + 1, a % m);
  }

  lemma TurnsRepeat(active: seq<Name>, slot: nat)
    requires active != []
    ensures RoundRobin(active)(slot + Round(active)) == RoundRobin(active)(slot)
  {
    RemainderRepeats(slot, Round(active));
  }

  /** Every window of one round has as many owned slots as any other. */
  lemma {:induction false} EveryWindow(active: seq<Name>, owners: set<Name>, start: nat)
    requires active != []
    ensures Count(RoundRobin(active), owners, start, Round(active)) == Count(RoundRobin(active), owners, 0, Round(active))
    decreases start
  {
    hide Count, RoundRobin, One, Round;
    if start > 0 {
      var schedule, p := RoundRobin(active), Round(active);
      EveryWindow(active, owners, start - 1);
      CountFirst(schedule, owners, start - 1, p);
      CountLast(schedule, owners, start - 1, p);
      TurnsRepeat(active, start);
      SameTurn(schedule, owners, start, start + p);
    }
  }

  lemma SameTurn(schedule: nat -> Name, owners: set<Name>, a: nat, b: nat)
    requires schedule(a) == schedule(b)
    ensures One(schedule, owners, a) == One(schedule, owners, b)
  {
  }

  lemma TurnOf(active: seq<Name>, j: nat)
    requires active != [] && j < Round(active)
    ensures j / PRODUCER_REPETITIONS < |active|
    ensures RoundRobin(active)(Round(active) + j) == active[j / PRODUCER_REPETITIONS]
  {
    assert (Round(active) + j) % Round(active) == j;
  }

  ghost function SeatCount(active: seq<Name>, owners: set<Name>, j: nat): nat
    requires j <= Round(active)
  {
    var k := j / PRODUCER_REPETITIONS;
    PRODUCER_REPETITIONS * Seats(active[..k], owners) +
    if k < |active| && active[k] in owners then j % PRODUCER_REPETITIONS else 0
  }

  lemma SeatNext(active: seq<Name>, owners: set<Name>, j: nat)
    requires j < Round(active)
    ensures j / PRODUCER_REPETITIONS < |active|
    ensures SeatCount(active, owners, j + 1) ==
            SeatCount(active, owners, j) + if active[j / PRODUCER_REPETITIONS] in owners then 1 else 0
  {
    var k := j / PRODUCER_REPETITIONS;
    if j % PRODUCER_REPETITIONS == PRODUCER_REPETITIONS - 1 {
      assert (j + 1) / PRODUCER_REPETITIONS == k + 1;
      assert active[..k + 1][..k] == active[..k];
    } else {
      assert (j + 1) / PRODUCER_REPETITIONS == k;
    }
  }

  lemma {:induction false} AlignedWindow(active: seq<Name>, owners: set<Name>, j: nat)
    requires active != [] && j <= Round(active)
    ensures Count(RoundRobin(active), owners, Round(active) - 1, j) == SeatCount(active, owners, j)
    decreases j
  {
    if j > 0 {
      AlignedWindow(active, owners, j - 1);
      AlignedStep(active, owners, j - 1, Round(active), RoundRobin(active));
    }
  }

  lemma AlignedStep(active: seq<Name>, owners: set<Name>, j: nat, round: nat, schedule: nat -> Name)
    requires active != [] && j < round == Round(active) && schedule == RoundRobin(active)
    requires Count(schedule, owners, round - 1, j) == SeatCount(active, owners, j)
    ensures Count(schedule, owners, round - 1, j + 1) == SeatCount(active, owners, j + 1)
  {
    hide Count, SeatCount, RoundRobin, One, Round;
    CountLast(schedule, owners, round - 1, j);
    TurnOf(active, j);
    SeatNext(active, owners, j);
    OneIs(schedule, owners, round + j);
  }

  lemma OneIs(schedule: nat -> Name, owners: set<Name>, slot: nat)
    ensures One(schedule, owners, slot) == if schedule(slot) in owners then 1 else 0
  {
  }

  /** A full round, wherever it starts, has twelve slots for each seat the owners hold. */
  lemma FullRound(active: seq<Name>, owners: set<Name>, start: nat)
    requires active != []
    ensures Count(RoundRobin(active), owners, start, Round(active)) == PRODUCER_REPETITIONS * Seats(active, owners)
  {
    EveryWindow(active, owners, start);
    EveryWindow(active, owners, Round(active) - 1);
    AlignedWindow(active, owners, Round(active));
    WholeRound(active, owners);
  }

  lemma WholeRound(active: seq<Name>, owners: set<Name>)
    ensures SeatCount(active, owners, Round(active)) == PRODUCER_REPETITIONS * Seats(active, owners)
  {
    assert Round(active) / PRODUCER_REPETITIONS == |active| && Round(active) % PRODUCER_REPETITIONS == 0;
    assert active[..|active|] == active;
  }

  /** What lies beyond the round repeats its beginning. */
  lemma WindowBeyondRound(active: seq<Name>, owners: set<Name>, start: nat, n: nat)
    requires active != []
    ensures Count(RoundRobin(active), owners, start, n + Round(active)) ==
            PRODUCER_REPETITIONS * Seats(active, owners) + Count(RoundRobin(active), owners, start, n)
  {
    hide *;
    CountSplit(RoundRobin(active), owners, start, n, Round(active));
    FullRound(active, owners, start + n);
  }

  /** Four producers, fifty slots: two owners make 26 blocks and another one 12 just when the window begins with the two. */
  lemma FourProducersFiftySlots(active: seq<Name>, start: nat)
    requires |active| == 4 && NoDup(active)
    ensures var schedule := RoundRobin(active);
            var both, other := {active[0], active[1]}, {active[3]};
            (Count(schedule, both, start, 50) == 26 && Count(schedule, other, start, 50) == 12) <==>
            (schedule(start + 1) in both && schedule(start + 2) in both)
  {
    var schedule := RoundRobin(active);
    var both, other := {active[0], active[1]}, {active[3]};
    WindowBeyondRound(active, both, start, 2);
    WindowBeyondRound(active, other, start, 2);
    assert Seats(active, both) == 2 && Seats(active, other) == 1 by {
      assert active[..3][..2] == active[..2] && active[..2][..1] == active[..1];
      assert active[..1][..0] == [];
      assert Seats(active[..1], both) == 1 && Seats(active[..1], other) == 0;
      assert Seats(active[..2], both) == 2 && Seats(active[..2], other) == 0;
      assert Seats(active[..3], both) == 2 && Seats(active[..3], other) == 0;
    }
    CountLast(schedule, both, start, 1);
    CountLast(schedule, both, start, 0);
    CountLast(schedule, other, start, 1);
    CountLast(schedule, other, start, 0);
  }
}
