/** The double that an integer is converted to is the best there is. */
module NearestDouble {
  import opened Arithmetic
  import opened Float64
  import opened Int128ToFloat

  ghost function Distance(x: real, y: real): real {
    if x >= y then x - y else y - x
  }

  function Gap(n: nat, m: nat): nat {
    if n >= m then n - m else m - n
  }

  /** No other multiple of the unit is closer. */
  lemma OtherMultiple(n: nat, kept: nat, unit: nat, other: nat)
    requires NearestEven(kept, n, unit)
    ensures Gap(n, kept * unit) <= Gap(n, other * unit)
  {
    if kept < other {
      MulMono(kept + 1, other, unit, unit);
      assert (kept + 1) * unit == kept * unit + unit;
    } else if other < kept {
      MulMono(other + 1, kept, unit, unit);
      assert (other + 1) * unit == other * unit + unit;
    }
  }

  /** A number of 53 digits in smaller units lies below every integer of that many digits. */
  lemma SmallerUnits(m: nat, q: int, e: nat)
    requires m < TWO_53 && e > 0 && q < e
    ensures Scaled(m, q) <= (TWO_52 * Pow2(e)) as real
  {
    assert Pow2(e) == 2 * Pow2(e - 1) && TWO_52 * (2 * Pow2(e - 1)) == TWO_53 * Pow2(e - 1);
    if q >= 0 {
      ShiftLeftExact(m, q);
      Pow2Grows(q, e - 1);
      MulMono(m, TWO_53, Pow2(q), Pow2(e - 1));
    } else {
      FractionAtMost(m, q);
      MulMono(TWO_53, TWO_53, 1, Pow2(e - 1));
    }
    hide Scaled, Pow2;
  }

  lemma FractionAtMost(m: nat, q: int)
    requires q < 0
    ensures Scaled(m, q) <= m as real
  {
    assert PowR(q) <= 1.0 by { InverseAtMost(Pow2(-q) as real); }
    MulAtMost(PowR(q), 1.0, m as real);
  }

  lemma InverseAtMost(d: real)
    requires d >= 1.0
    ensures 1.0 / d <= 1.0
  {
  }

  /** A number of 53 digits in units that are at least as large is a multiple. */
  lemma LargerUnits(m: nat, q: int, e: nat) returns (other: nat)
    requires q >= e
    ensures Scaled(m, q) == (other * Pow2(e)) as real
  {
    other := m * Pow2(q - e);
    ShiftLeftExact(m, q);
    Pow2Adds(q - e, e);
    Associates(m, Pow2(q - e), Pow2(e));
  }

  lemma Associates(a: nat, b: nat, c: nat)
    ensures a * (b * c) == (a * b) * c
  {
  }

  lemma MagnitudeNotCloser(n: nat, m: nat, q: int)
    requires n > 0 && m < TWO_53
    ensures Gap(n, Kept(n) * Unit(n)) as real <= Distance(Scaled(m, q), n as real)
  {
    hide Scaled, Kept, NearestEven, Digits, Pow2;
    KeptNearest(n);
    if Digits(n) <= 53 {
      assert Kept(n) * Unit(n) == n;
    } else {
      TopOfUnits(n);
      MultiplesNotCloser(n, Kept(n), Digits(n) - 53, m, q);
    }
  }

  lemma MultiplesNotCloser(n: nat, kept: nat, e: nat, m: nat, q: int)
    requires e > 0 && m < TWO_53 && NearestEven(kept, n, Pow2(e)) && TWO_52 * Pow2(e) <= n
    ensures Gap(n, kept * Pow2(e)) as real <= Distance(Scaled(m, q), n as real)
  {
    hide Scaled, NearestEven, Pow2;
    if q >= e {
      var other := LargerUnits(m, q, e);
      OtherMultiple(n, kept, Pow2(e), other);
      GapIsDistance(n, other * Pow2(e));
    } else {
      SmallerUnits(m, q, e);
      OtherMultiple(n, kept, Pow2(e), TWO_52);
    }
  }

  lemma GapIsDistance(n: nat, m: nat)
    ensures Gap(n, m) as real == Distance(m as real, n as real)
  {
  }

  lemma TopOfUnits(n: nat)
    requires n > 0 && Digits(n) > 53
    ensures TWO_52 * Pow2(Digits(n) - 53) <= n
  {
    Constants();
    DigitsBound(n);
    Pow2Adds(52, Digits(n) - 53);
    hide Pow2, Digits;
  }

  /** No finite pattern denotes a number that is closer to the integer than the one it is converted to. */
  lemma NoneCloser(a: int, p: Pattern)
    requires a != 0 && -TWO_127 <= a < TWO_127 && p.Valid() && p.biased < 2047
    ensures FromInt(a) == (if a == -TWO_127 then Undefined else Defined(ResultOf(a).Bits())) && ResultOf(a).Valid()
    ensures Distance(Denoted(ResultOf(a)), a as real) <= Distance(Denoted(p), a as real)
  {
    var n := if a < 0 then -a else a;
    ToDoubleRounds(a);
    var m, q := PartsOf(p);
    MagnitudeNotCloser(n, m, q);
    KeptNearest(n);
    OtherMultiple(n, Kept(n), Unit(n), 0);
    GapIsDistance(n, Kept(n) * Unit(n));
    hide Scaled, Kept, Unit, NearestEven, ToDouble, ResultOf;
  }

  lemma PartsOf(p: Pattern) returns (m: nat, q: int)
    requires p.Valid()
    ensures m < TWO_53 && Magnitude(p) == Scaled(m, q)
  {
    if p.biased == 0 {
      m, q := p.trailing, 1 - BIAS - 52;
    } else {
      m, q := p.trailing + TWO_52, p.biased - BIAS - 52;
    }
  }
}
