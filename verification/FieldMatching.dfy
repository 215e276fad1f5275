/**
 * The check that the fields named by a reflection macro mirror the fields of
 * the class, up to the fields annotated as ignored or swapped.
 */
module FieldMatching {
  import opened Lists

  /** The inputs of one check, as they stand when it starts. */
  datatype Problem = Problem(fields: seq<string>, reflected: seq<string>, ignores: seq<string>, swaps: seq<string>) {
    ghost function Swaps(): set<string> { Elems(swaps) }
    ghost function Ignores(): set<string> { Elems(ignores) }
    ghost function Marked(): set<string> { Swaps() + Ignores() }

    /** What the two cursors have passed. */
    ghost function FSeen(f: nat): set<string>
      requires f <= |fields|
    {
      Elems(fields[..f])
    }

    ghost function RSeen(r: nat): set<string>
      requires r <= |reflected|
    {
      Elems(reflected[..r])
    }

    /** The order-relevant part of the first `f` class fields, and of the first `r` reflected ones. */
    ghost function KeptFields(f: nat): seq<string>
      requires f <= |fields|
    {
      Without(fields[..f], Marked())
    }

    ghost function KeptReflected(r: nat): seq<string>
      requires r <= |reflected|
    {
      Without(reflected[..r], Swaps())
    }

    /** What annotation bookkeeping guarantees. */
    ghost predicate WellFormed() {
      NoDup(reflected) && NoDup(ignores) && NoDup(swaps) && Ignores() !! Swaps()
    }

    /** A swap mark on a field that is not reflected at all. */
    ghost predicate HasStraySwap() {
      !(Swaps() <= Elems(reflected))
    }
  }

  /**
   * The meaning of a reflection: exactly the fields that are not ignored are
   * reflected, marks name real fields, and whatever is not marked as swapped
   * appears in class order.
   */
  ghost predicate Mirrors(p: Problem) {
    && NoDup(p.fields)
    && p.Ignores() <= Elems(p.fields)
    && p.Swaps() <= Elems(p.fields) * Elems(p.reflected)
    && Elems(p.reflected) == Elems(p.fields) - p.Ignores()
    && Without(p.reflected, p.Swaps()) == Without(p.fields, p.Marked())
  }

  /**
   * A swap mark on a field that did not move: field `n` of the class is
   * reflected field `q`, nothing marked precedes it there since the previous
   * unmarked field, and everything between that unmarked field (before `a`)
   * and `n` is itself swapped to a later position.
   */
  ghost predicate InPlaceSwap(p: Problem, a: nat, n: nat, q: nat) {
    && a <= n < |p.fields| && q < |p.reflected|
    && p.fields[n] == p.reflected[q] && p.fields[n] in p.Swaps()
    && (a == 0 || p.fields[a - 1] !in p.Marked())
    && (q == 0 || p.reflected[q - 1] !in p.Swaps())
    && (forall j :: a <= j < n ==> p.fields[j] in p.Swaps() - p.RSeen(q))
    && |p.KeptFields(a)| == |p.KeptReflected(q)|
  }

  ghost predicate Accepted(p: Problem) {
    Mirrors(p) && forall a: nat, n: nat, q: nat :: !InPlaceSwap(p, a, n, q)
  }

  /** The five lists the check keeps while its two cursors advance. */
  datatype Marks = Marks(swapped: seq<string>, ignored: seq<string>, skipped: seq<string>, back: seq<string>, fwd: seq<string>)

  /** The lists are determined by what the two cursors have passed. */
  ghost predicate Pending(p: Problem, f: nat, r: nat, m: Marks)
    requires f <= |p.fields| && r <= |p.reflected|
  {
    && NoDup(m.swapped) && NoDup(m.ignored) && NoDup(m.back) && NoDup(m.fwd)
    && Elems(m.swapped) == p.Swaps() - p.FSeen(f) - p.RSeen(r)
    && Elems(m.back) == p.Swaps() * p.FSeen(f) - p.RSeen(r)
    && Elems(m.fwd) == p.Swaps() * p.RSeen(r) - p.FSeen(f)
    && Elems(m.ignored) == p.Ignores() - p.FSeen(f)
    && Elems(m.skipped) == p.Ignores() * p.FSeen(f)
  }

  /** The invariant of the check: moreover, the unmarked parts of both prefixes agree. */
  ghost predicate Inv(p: Problem, f: nat, r: nat, m: Marks) {
    && f <= |p.fields| && r <= |p.reflected|
    && NoDup(p.fields[..f])
    && p.KeptFields(f) == p.KeptReflected(r)
    && Pending(p, f, r, m)
  }

  /** Advancing a cursor by one. */
  lemma NextField(p: Problem, f: nat)
    requires f < |p.fields|
    ensures p.FSeen(f + 1) == p.FSeen(f) + {p.fields[f]}
    ensures p.KeptFields(f + 1) == p.KeptFields(f) + if p.fields[f] in p.Marked() then [] else [p.fields[f]]
    ensures NoDup(p.fields[..f]) && p.fields[f] !in p.FSeen(f) ==> NoDup(p.fields[..f + 1])
  {
    assert p.fields[..f + 1] == p.fields[..f] + [p.fields[f]];
    ElemsNext(p.fields, f);
    WithoutNext(p.fields, p.Marked(), f);
  }

  lemma NextReflected(p: Problem, r: nat)
    requires r < |p.reflected|
    ensures p.RSeen(r + 1) == p.RSeen(r) + {p.reflected[r]}
    ensures p.KeptReflected(r + 1) == p.KeptReflected(r) + if p.reflected[r] in p.Swaps() then [] else [p.reflected[r]]
    ensures NoDup(p.reflected) ==> p.reflected[r] !in p.RSeen(r)
  {
    ElemsNext(p.reflected, r);
    WithoutNext(p.reflected, p.Swaps(), r);
  }

  /** The moves of the machine. */
  lemma BackSwap(p: Problem, f: nat, r: nat, m: Marks)
    requires p.WellFormed() && Inv(p, f, r, m) && f < |p.fields|
    requires p.fields[f] in Elems(m.swapped)
    ensures Inv(p, f + 1, r, m.(swapped := Remove(m.swapped, p.fields[f]), back := m.back + [p.fields[f]]))
  {
    NextField(p, f);
    RemoveNoDup(m.swapped, p.fields[f]);
    NoDupSnoc(m.back, p.fields[f]);
  }

  lemma FwdSwap(p: Problem, f: nat, r: nat, m: Marks)
    requires p.WellFormed() && Inv(p, f, r, m) && r < |p.reflected|
    requires p.reflected[r] in Elems(m.swapped)
    ensures Inv(p, f, r + 1, m.(swapped := Remove(m.swapped, p.reflected[r]), fwd := m.fwd + [p.reflected[r]]))
  {
    NextReflected(p, r);
    RemoveNoDup(m.swapped, p.reflected[r]);
    NoDupSnoc(m.fwd, p.reflected[r]);
  }

  lemma SkipIgnored(p: Problem, f: nat, r: nat, m: Marks)
    requires p.WellFormed() && Inv(p, f, r, m) && f < |p.fields|
    requires p.fields[f] in Elems(m.ignored)
    ensures Inv(p, f + 1, r, m.(ignored := Remove(m.ignored, p.fields[f]), skipped := m.skipped + [p.fields[f]]))
  {
    NextField(p, f);
    RemoveNoDup(m.ignored, p.fields[f]);
    assert Elems(m.skipped + [p.fields[f]]) == Elems(m.skipped) + {p.fields[f]};
  }

  lemma SettleBack(p: Problem, f: nat, r: nat, m: Marks)
    requires p.WellFormed() && Inv(p, f, r, m) && r < |p.reflected|
    requires p.reflected[r] in Elems(m.back)
    ensures Inv(p, f, r + 1, m.(back := Remove(m.back, p.reflected[r])))
  {
    NextReflected(p, r);
    RemoveNoDup(m.back, p.reflected[r]);
  }

  lemma SettleFwd(p: Problem, f: nat, r: nat, m: Marks)
    requires p.WellFormed() && Inv(p, f, r, m) && f < |p.fields|
    requires p.fields[f] in Elems(m.fwd)
    ensures Inv(p, f + 1, r, m.(fwd := Remove(m.fwd, p.fields[f])))
  {
    NextField(p, f);
    RemoveNoDup(m.fwd, p.fields[f]);
  }

  /** A plain match is only possible on unmarked fields, and never repeats a class field. */
  lemma Match(p: Problem, f: nat, r: nat, m: Marks)
    requires p.WellFormed() && Inv(p, f, r, m) && f < |p.fields| && r < |p.reflected|
    requires p.fields[f] == p.reflected[r]
    requires p.fields[f] !in Elems(m.swapped) + Elems(m.skipped) + Elems(m.ignored) + Elems(m.back) + Elems(m.fwd)
    ensures p.fields[f] !in p.Marked()
    ensures Inv(p, f + 1, r + 1, m)
  {
    NextField(p, f);
    NextReflected(p, r);
    ElemsWithout(p.fields[..f], p.Marked());
    ElemsWithout(p.reflected[..r], p.Swaps());
    assert p.fields[f] !in p.FSeen(f) - p.Marked();
  }

  /** In a mirroring problem, the next unmarked fields on both sides are the same. */
  lemma NextKeptAgree(p: Problem, f: nat, r: nat)
    requires f < |p.fields| && r <= |p.reflected| && p.KeptFields(f) == p.KeptReflected(r)
    requires Without(p.reflected, p.Swaps()) == Without(p.fields, p.Marked())
    requires p.fields[f] !in p.Marked()
    requires r == |p.reflected| || p.reflected[r] !in p.Swaps()
    ensures r < |p.reflected| && p.fields[f] == p.reflected[r]
  {
    var k := |p.KeptFields(f)|;
    assert k < |Without(p.fields, p.Marked())| && Without(p.fields, p.Marked())[k] == p.fields[f] by {
      NextField(p, f);
      WithoutPrefix(p.fields, p.Marked(), f + 1, |p.fields|);
      WholePrefix(p.fields);
    }
    WholePrefix(p.reflected);
    if r < |p.reflected| {
      NextReflected(p, r);
      WithoutPrefix(p.reflected, p.Swaps(), r + 1, |p.reflected|);
    }
  }

  /** In a mirroring problem, what is left after all class fields are read was swapped back. */
  lemma TailIsBackSwapped(p: Problem, r: nat, m: Marks)
    requires p.WellFormed() && Mirrors(p) && Inv(p, |p.fields|, r, m) && r < |p.reflected|
    ensures p.reflected[r] in Elems(m.back)
  {
    WholePrefix(p.fields);
    WholePrefix(p.reflected);
    NextReflected(p, r);
    WithoutPrefix(p.reflected, p.Swaps(), r + 1, |p.reflected|);
  }

  /** With both lists read and every mark spent, the lists mirror each other. */
  lemma SpentMarksMirror(p: Problem, m: Marks)
    requires p.WellFormed() && Inv(p, |p.fields|, |p.reflected|, m)
    requires m.swapped == [] && m.ignored == [] && m.back == [] && m.fwd == []
    ensures Mirrors(p)
  {
    WholePrefix(p.fields);
    WholePrefix(p.reflected);
    ElemsWithout(p.fields, p.Marked());
    ElemsWithout(p.reflected, p.Swaps());
    forall x | x in p.Swaps()
      ensures x in Elems(p.fields) && x in Elems(p.reflected)
    {
      assert x !in Elems(m.swapped) && x !in Elems(m.back) && x !in Elems(m.fwd);
    }
    forall x | x in p.Ignores()
      ensures x in Elems(p.fields)
    {
      assert x !in Elems(m.ignored);
    }
    forall x
      ensures x in Elems(p.reflected) <==> x in Elems(p.fields) - p.Ignores()
    {
      assert x in Elems(p.reflected) - p.Swaps() <==> x in Elems(p.fields) - p.Marked();
    }
  }

  /**
   * Where the reflected cursor can stand when a class field comes up: right
   * behind the last unmarked field, at a field that is not a pending swap, or
   * (while it runs ahead) opposite a class field that is not a pending swap.
   */
  ghost predicate Placed(p: Problem, f: nat, r: nat)
    requires f <= |p.fields| && r <= |p.reflected|
  {
    || (exists a: nat :: Anchored(p, a, f, r))
    || r == |p.reflected| || p.reflected[r] !in p.Swaps() - p.FSeen(f)
    || f == |p.fields| || p.fields[f] !in p.Swaps() - p.RSeen(r)
  }

  ghost predicate Anchored(p: Problem, a: nat, f: nat, r: nat)
    requires f <= |p.fields| && r <= |p.reflected|
  {
    && a <= f
    && (a == 0 || p.fields[a - 1] !in p.Marked())
    && (r == 0 || p.reflected[r - 1] !in p.Swaps())
    && (forall j :: a <= j < f ==> p.fields[j] in p.Swaps() - p.RSeen(r))
    && |p.KeptFields(a)| == |p.KeptReflected(r)|
  }

  /** How far the cursors can get in the presence of an in-place swap. */
  ghost predicate Blocked(a: nat, n: nat, q: nat, f: nat, r: nat) {
    (f < a && r < q) || (a <= f <= n && r == q)
  }

  ghost predicate AllBlocked(p: Problem, f: nat, r: nat) {
    forall a: nat, n: nat, q: nat :: InPlaceSwap(p, a, n, q) ==> Blocked(a, n, q, f, r)
  }

  lemma BlockedInitially(p: Problem)
    ensures AllBlocked(p, 0, 0)
  {
    forall a: nat, n: nat, q: nat | InPlaceSwap(p, a, n, q)
      ensures Blocked(a, n, q, 0, 0)
    {
      if q > 0 {
        NextReflected(p, q - 1);
      }
      if a > 0 {
        NextField(p, a - 1);
      }
    }
  }

  /** Advancing one cursor over a marked field keeps every in-place swap out of reach. */
  lemma BlockedByBack(p: Problem, f: nat, r: nat)
    requires AllBlocked(p, f, r) && f < |p.fields| && r <= |p.reflected|
    requires p.fields[f] in p.Swaps() && (r == |p.reflected| || p.reflected[r] != p.fields[f])
    ensures AllBlocked(p, f + 1, r)
  {
  }

  lemma BlockedByField(p: Problem, f: nat, r: nat)
    requires NoDup(p.reflected) && AllBlocked(p, f, r) && f < |p.fields| && r <= |p.reflected|
    requires p.fields[f] in p.Marked() && p.fields[f] !in p.Swaps() - p.RSeen(r)
    ensures AllBlocked(p, f + 1, r)
  {
    forall a: nat, n: nat, q: nat | InPlaceSwap(p, a, n, q)
      ensures Blocked(a, n, q, f + 1, r)
    {
      InPlacePending(p, a, n, q, f, r);
    }
  }

  lemma BlockedByReflected(p: Problem, f: nat, r: nat)
    requires NoDup(p.reflected) && AllBlocked(p, f, r) && f < |p.fields| && r < |p.reflected|
    requires p.reflected[r] in p.Swaps() && p.fields[f] !in p.Swaps() - p.RSeen(r)
    ensures AllBlocked(p, f, r + 1)
  {
    forall a: nat, n: nat, q: nat | InPlaceSwap(p, a, n, q)
      ensures Blocked(a, n, q, f, r + 1)
    {
      InPlacePending(p, a, n, q, f, r);
    }
  }

  lemma InPlacePending(p: Problem, a: nat, n: nat, q: nat, f: nat, r: nat)
    requires InPlaceSwap(p, a, n, q) && Blocked(a, n, q, f, r) && f < |p.fields| && r <= |p.reflected|
    requires NoDup(p.reflected)
    requires p.fields[f] !in p.Swaps() - p.RSeen(r)
    ensures f < a && r < q
  {
    NoDupFresh(p.reflected, q);
  }

  lemma BlockedMatch(p: Problem, f: nat, r: nat)
    requires AllBlocked(p, f, r) && f < |p.fields| && r < |p.reflected| && p.KeptFields(f) == p.KeptReflected(r)
    requires p.fields[f] == p.reflected[r] && p.fields[f] !in p.Marked()
    ensures AllBlocked(p, f + 1, r + 1)
  {
    hide InPlaceSwap;
    forall a: nat, n: nat, q: nat | InPlaceSwap(p, a, n, q)
      ensures Blocked(a, n, q, f + 1, r + 1)
    {
      OneBlockedMatch(p, a, n, q, f, r);
    }
  }

  lemma OneBlockedMatch(p: Problem, a: nat, n: nat, q: nat, f: nat, r: nat)
    requires InPlaceSwap(p, a, n, q) && Blocked(a, n, q, f, r)
    requires f < |p.fields| && r < |p.reflected| && p.KeptFields(f) == p.KeptReflected(r)
    requires p.fields[f] == p.reflected[r] && p.fields[f] !in p.Marked()
    ensures Blocked(a, n, q, f + 1, r + 1)
  {
    hide NoDup, Without;
    NextField(p, f);
    NextReflected(p, r);
    if f + 1 == a && r + 1 < q {
      WithoutPrefix(p.reflected, p.Swaps(), r + 1, q - 1);
      NextReflected(p, q - 1);
    } else if f + 1 < a && r + 1 == q {
      WithoutPrefix(p.fields, p.Marked(), f + 1, a - 1);
      NextField(p, a - 1);
    }
  }

  /** The swapped field at the cursor is in place only if the problem has an in-place swap there. */
  lemma CursorInPlace(p: Problem, f: nat, r: nat)
    requires NoDup(p.fields) && f < |p.fields| && r < |p.reflected| && Placed(p, f, r)
    requires p.fields[f] in p.Swaps() - p.RSeen(r) && p.fields[f] == p.reflected[r]
    ensures !Accepted(p)
  {
    NoDupFresh(p.fields, f);
    var a: nat :| Anchored(p, a, f, r);
    assert InPlaceSwap(p, a, f, r);
  }

  lemma PlacedAfterBack(p: Problem, f: nat, r: nat)
    requires f < |p.fields| && r <= |p.reflected| && Placed(p, f, r)
    requires p.fields[f] in p.Swaps() - p.RSeen(r)
    ensures Placed(p, f + 1, r)
  {
    NextField(p, f);
    if a: nat :| Anchored(p, a, f, r) {
      assert Anchored(p, a, f + 1, r);
    }
  }

  lemma PlacedAfterMatch(p: Problem, f: nat, r: nat)
    requires f < |p.fields| && r < |p.reflected| && p.KeptFields(f) == p.KeptReflected(r)
    requires p.fields[f] == p.reflected[r] && p.fields[f] !in p.Marked()
    ensures Placed(p, f + 1, r + 1)
  {
    NextField(p, f);
    NextReflected(p, r);
    assert Anchored(p, f + 1, f + 1, r + 1);
  }

  /** Everything the check maintains while it reads the class fields. */
  ghost predicate State(p: Problem, f: nat, r: nat, m: Marks) {
    && Inv(p, f, r, m)
    && (NoDup(p.fields) ==> AllBlocked(p, f, r) && Placed(p, f, r))
  }

  /** The same, for marks of which one is stray; that mark is then never used up. */
  ghost predicate Tracks(p: Problem, f: nat, r: nat, m: Marks) {
    && (p.WellFormed() ==> State(p, f, r, m))
    && p.Swaps() - Elems(p.reflected) <= Elems(m.swapped)
  }

  lemma KeepStrays(p: Problem, m: Marks, x: string)
    requires p.Swaps() - Elems(p.reflected) <= Elems(m.swapped) && x in m.swapped && x in p.reflected
    ensures p.Swaps() - Elems(p.reflected) <= Elems(Remove(m.swapped, x))
  {
    forall y | y in p.Swaps() - Elems(p.reflected)
      ensures y in Remove(m.swapped, x)
    {
      assert y in Elems(m.swapped);
      RemoveKeeps(m.swapped, x, y);
    }
  }

  lemma Start(p: Problem)
    requires p.WellFormed()
    ensures State(p, 0, 0, Marks(p.swaps, p.ignores, [], [], []))
  {
    BlockedInitially(p);
    assert Anchored(p, 0, 0, 0);
  }

  lemma StateBackSwap(p: Problem, f: nat, r: nat, m: Marks)
    requires p.WellFormed() && State(p, f, r, m) && f < |p.fields| && p.fields[f] in m.swapped
    ensures r < |p.reflected| && p.reflected[r] == p.fields[f] ==> !Accepted(p)
    ensures r == |p.reflected| || p.reflected[r] != p.fields[f] ==>
              State(p, f + 1, r, m.(swapped := Remove(m.swapped, p.fields[f]), back := m.back + [p.fields[f]]))
    ensures p.fields[f] !in p.reflected ==> !Mirrors(p)
  {
    assert p.fields[f] in Elems(m.swapped);
    BackSwap(p, f, r, m);
    if NoDup(p.fields) {
      if r < |p.reflected| && p.reflected[r] == p.fields[f] {
        CursorInPlace(p, f, r);
      } else {
        BlockedByBack(p, f, r);
        PlacedAfterBack(p, f, r);
      }
    }
  }

  lemma StateFwdSwap(p: Problem, f: nat, r: nat, m: Marks)
    requires p.WellFormed() && State(p, f, r, m) && f < |p.fields| && p.fields[f] !in m.swapped
    requires r < |p.reflected| && p.reflected[r] in m.swapped
    ensures State(p, f, r + 1, m.(swapped := Remove(m.swapped, p.reflected[r]), fwd := m.fwd + [p.reflected[r]]))
  {
    assert p.fields[f] !in Elems(m.swapped) && p.reflected[r] in Elems(m.swapped);
    FwdSwap(p, f, r, m);
    if NoDup(p.fields) {
      NoDupFresh(p.fields, f);
      NextReflected(p, r);
      BlockedByReflected(p, f, r);
    }
  }

  lemma StateSettleBack(p: Problem, f: nat, r: nat, m: Marks)
    requires p.WellFormed() && State(p, f, r, m) && f < |p.fields| && p.fields[f] !in m.swapped
    requires r < |p.reflected| && p.reflected[r] in m.back
    ensures State(p, f, r + 1, m.(back := Remove(m.back, p.reflected[r])))
  {
    assert p.fields[f] !in Elems(m.swapped) && p.reflected[r] in Elems(m.back);
    SettleBack(p, f, r, m);
    if NoDup(p.fields) {
      NoDupFresh(p.fields, f);
      NextReflected(p, r);
      BlockedByReflected(p, f, r);
    }
  }

  /** A class field is passed alone, as ignored or as swapped before, only when no swap is pending opposite it. */
  lemma PassFieldAlone(p: Problem, f: nat, r: nat, m: Marks)
    requires p.WellFormed() && State(p, f, r, m) && f < |p.fields| && NoDup(p.fields)
    requires p.fields[f] in Elems(m.ignored) + Elems(m.fwd)
    requires r == |p.reflected| || p.reflected[r] !in Elems(m.swapped)
    ensures AllBlocked(p, f + 1, r) && Placed(p, f + 1, r)
  {
    NextField(p, f);
    BlockedByField(p, f, r);
    if r < |p.reflected| {
      NoDupFresh(p.reflected, r);
    }
  }

  lemma StateSkipIgnored(p: Problem, f: nat, r: nat, m: Marks)
    requires p.WellFormed() && State(p, f, r, m) && f < |p.fields| && p.fields[f] in m.ignored
    requires r == |p.reflected| || p.reflected[r] !in m.swapped
    ensures State(p, f + 1, r, m.(ignored := Remove(m.ignored, p.fields[f]), skipped := m.skipped + [p.fields[f]]))
    ensures r < |p.reflected| && p.reflected[r] == p.fields[f] ==> !Mirrors(p)
  {
    assert p.fields[f] in Elems(m.ignored) && (r < |p.reflected| ==> p.reflected[r] in Elems(p.reflected));
    SkipIgnored(p, f, r, m);
    if NoDup(p.fields) {
      PassFieldAlone(p, f, r, m);
    }
  }

  lemma StateSettleFwd(p: Problem, f: nat, r: nat, m: Marks)
    requires p.WellFormed() && State(p, f, r, m) && f < |p.fields| && p.fields[f] in m.fwd
    requires r == |p.reflected| || p.reflected[r] !in m.swapped
    ensures State(p, f + 1, r, m.(fwd := Remove(m.fwd, p.fields[f])))
  {
    assert p.fields[f] in Elems(m.fwd);
    SettleFwd(p, f, r, m);
    if NoDup(p.fields) {
      PassFieldAlone(p, f, r, m);
    }
  }

  /** With no mark left to apply, the two fields are equal in a mirroring problem. */
  lemma MismatchRefutes(p: Problem, f: nat, r: nat, m: Marks)
    requires p.WellFormed() && Inv(p, f, r, m) && f < |p.fields|
    requires p.fields[f] !in m.swapped && p.fields[f] !in m.ignored && p.fields[f] !in m.fwd
    requires r == |p.reflected| || (p.reflected[r] !in m.swapped && p.reflected[r] !in m.back)
    requires r == |p.reflected| || p.reflected[r] != p.fields[f]
    ensures !Mirrors(p)
  {
    if Mirrors(p) {
      NoDupFresh(p.fields, f);
      assert p.fields[f] !in Elems(m.swapped) + Elems(m.ignored) + Elems(m.fwd);
      assert p.fields[f] !in p.Marked();
      if r < |p.reflected| {
        NoDupFresh(p.reflected, r);
        assert p.reflected[r] !in Elems(m.swapped) + Elems(m.back);
      }
      NextKeptAgree(p, f, r);
    }
  }

  lemma SkippedRefutes(p: Problem, f: nat, r: nat, m: Marks)
    requires Inv(p, f, r, m) && r < |p.reflected| && p.reflected[r] in m.skipped
    ensures !Mirrors(p)
  {
    assert p.reflected[r] in Elems(m.skipped) && p.reflected[r] in Elems(p.reflected);
  }

  lemma StateMatch(p: Problem, f: nat, r: nat, m: Marks)
    requires p.WellFormed() && State(p, f, r, m) && f < |p.fields| && r < |p.reflected|
    requires p.fields[f] == p.reflected[r]
    requires p.fields[f] !in m.swapped && p.fields[f] !in m.ignored && p.fields[f] !in m.fwd
    requires p.fields[f] !in m.skipped && p.fields[f] !in m.back
    ensures State(p, f + 1, r + 1, m)
  {
    Match(p, f, r, m);
    PlacedAfterMatch(p, f, r);
    if NoDup(p.fields) {
      BlockedMatch(p, f, r);
    }
  }

  /** The assertions of the check, in source order. */
  datatype Check =
    | SwapNotReflected
    | SwapInCorrectOrder
    | IgnoreShouldBeSwap
    | IgnoreInCorrectOrder
    | FieldMismatch
    | ErroneousIgnores
    | FieldsNotInClass
    | ErroneousSwaps
    | SwapNeverProvided
    | SwapNotInClass

  datatype Verdict = Pass | Fail(check: Check)

  /** The verdict on a problem: it passes exactly if accepted; on lists that mirror each other one check only can fail. */
  ghost predicate Settles(v: Verdict, p: Problem) {
    && (v.Pass? <==> Accepted(p))
    && (v.Fail? && Mirrors(p) ==> v.check == SwapInCorrectOrder)
  }

  /** The reflection record of one class, whose mark lists the check consumes in place. */
  class Reflection {
    var fields: seq<string>
    var ignored: seq<string>
    var swapped: seq<string>

    constructor (fields: seq<string>, ignored: seq<string>, swapped: seq<string>)
      ensures this.fields == fields && this.ignored == ignored && this.swapped == swapped
    {
      this.fields, this.ignored, this.swapped := fields, ignored, swapped;
    }

    /** The check as it would be set against a class with the given fields. */
    ghost function Against(classFields: seq<string>): Problem
      reads this
    {
      Problem(classFields, fields, ignored, swapped)
    }

    method CheckFields(classFields: seq<string>) returns (v: Verdict)
      requires Against(classFields).WellFormed() || Against(classFields).HasStraySwap()
      modifies this`ignored, this`swapped
      ensures v.Pass? <==> Accepted(old(Against(classFields)))
      ensures v.Fail? && Mirrors(old(Against(classFields))) ==> v.check == SwapInCorrectOrder
      ensures v.Pass? ==> ignored == [] && swapped == []
    {
      hide NoDup, Inv, AllBlocked, Placed;
      ghost var p := Against(classFields);
      var f, r, back, fwd, skipped := 0, 0, [], [], [];
      if p.WellFormed() { Start(p); }
      while f < |classFields|
        invariant f <= |classFields| && r <= |fields|
        invariant Tracks(p, f, r, Marks(swapped, ignored, skipped, back, fwd))
        decreases |classFields| - f + |fields| - r
      {
        ghost var m := Marks(swapped, ignored, skipped, back, fwd);
        var field := classFields[f];
        if field in swapped {
          if p.WellFormed() { StateBackSwap(p, f, r, m); }
          if field in fields { KeepStrays(p, m, field); }
          swapped := Remove(swapped, field);
          back := back + [field];
          if field !in fields { return Fail(SwapNotReflected); }
          if r < |fields| && fields[r] == field { return Fail(SwapInCorrectOrder); }
          f := f + 1;
        } else if r < |fields| && fields[r] in swapped {
          if p.WellFormed() { StateFwdSwap(p, f, r, m); }
          KeepStrays(p, m, fields[r]);
          swapped := Remove(swapped, fields[r]);
          fwd := fwd + [fields[r]];
          r := r + 1;
        } else if r < |fields| && fields[r] in skipped {
          if p.WellFormed() { SkippedRefutes(p, f, r, m); }
          return Fail(IgnoreShouldBeSwap);
        } else if field in ignored {
          if p.WellFormed() { StateSkipIgnored(p, f, r, m); }
          ignored := Remove(ignored, field);
          skipped := skipped + [field];
          if r < |fields| && fields[r] == field { return Fail(IgnoreInCorrectOrder); }
          f := f + 1;
        } else if r < |fields| && fields[r] in back {
          if p.WellFormed() { StateSettleBack(p, f, r, m); }
          back := Remove(back, fields[r]);
          r := r + 1;
        } else if field in fwd {
          if p.WellFormed() { StateSettleFwd(p, f, r, m); }
          fwd := Remove(fwd, field);
          f := f + 1;
        } else {
          if r == |fields| || fields[r] != field {
            if p.WellFormed() { MismatchRefutes(p, f, r, m); }
            return Fail(FieldMismatch);
          }
          if p.WellFormed() { StateMatch(p, f, r, m); }
          f, r := f + 1, r + 1;
        }
      }
      v := Drain(p, r, skipped, back, fwd);
    }

    /** The end of the check: the reflected fields that are left, then the marks that are left. */
    method Drain(ghost p: Problem, r0: nat, ghost skipped: seq<string>, back0: seq<string>, fwd: seq<string>)
      returns (v: Verdict)
      requires (p.WellFormed() || p.HasStraySwap()) && p.reflected == fields && r0 <= |fields|
      requires Tracks(p, |p.fields|, r0, Marks(swapped, ignored, skipped, back0, fwd))
      ensures v.Pass? <==> Accepted(p)
      ensures v.Fail? ==> !Mirrors(p)
      ensures v.Pass? ==> ignored == [] && swapped == []
    {
      WholePrefix(p.fields);
      WholePrefix(p.reflected);
      if ignored != [] {
        assert ignored[0] in Elems(ignored);
        return Fail(ErroneousIgnores);
      }
      var r, back, unused := r0, back0, [];
      while r < |fields|
        invariant r <= |fields|
        invariant unused == [] && p.WellFormed() ==> Inv(p, |p.fields|, r, Marks(swapped, ignored, skipped, back, fwd))
        invariant unused != [] ==> !Mirrors(p)
      {
        ghost var m := Marks(swapped, ignored, skipped, back, fwd);
        if fields[r] in back {
          if unused == [] && p.WellFormed() { SettleBack(p, |p.fields|, r, m); }
          back := Remove(back, fields[r]);
        } else {
          if unused == [] && p.WellFormed() && Mirrors(p) {
            TailIsBackSwapped(p, r, m);
          }
          unused := unused + [fields[r]];
        }
        r := r + 1;
      }
      if unused != [] { return Fail(FieldsNotInClass); }
      if swapped != [] {
        assert swapped[0] in Elems(swapped);
        return Fail(ErroneousSwaps);
      }
      if back != [] {
        assert back[0] in Elems(back);
        return Fail(SwapNeverProvided);
      }
      forall x | x in p.Swaps()
        ensures x in Elems(p.reflected)
      {
        assert x in p.Swaps() - Elems(p.reflected) ==> x in Elems(swapped);
      }
      if fwd != [] {
        assert fwd[0] in Elems(fwd);
        return Fail(SwapNotInClass);
      }
      SpentMarksMirror(p, Marks(swapped, ignored, skipped, back, fwd));
      return Pass;
    }

    /** The check of one class; an object class ignores its id unless the annotations or the macro mention it. */
    method CheckClass(classFields: seq<string>, ignoreId: bool) returns (v: Verdict)
      requires Against(classFields).WellFormed()
      modifies this`ignored, this`swapped
      ensures !ignoreId || "id" in old(ignored) || "id" in fields ==> Settles(v, old(Against(classFields)))
      ensures ignoreId && "id" !in old(ignored) && "id" !in fields ==>
                Settles(v, Problem(classFields, fields, old(ignored) + ["id"], old(swapped)))
      ensures ignoreId && "id" in old(swapped) && "id" !in fields ==> v.Fail?
      ensures v.Pass? ==> ignored == [] && swapped == []
    {
      assert "id" in swapped && "id" !in fields ==> "id" in Elems(swapped) - Elems(fields);
      if ignoreId && "id" !in ignored && "id" !in fields {
        NoDupSnoc(ignored, "id");
        assert "id" !in Elems(fields);
        ignored := ignored + ["id"];
      }
      v := CheckFields(classFields);
    }
  }

}
