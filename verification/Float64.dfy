/** Conversions between 128-bit integers and binary64 patterns. */
module Float64 {
  import opened Arithmetic

  function Pow2(k: nat): (p: nat)
    ensures p > 0
  {
    if k == 0 then 1 else 2 * Pow2(k - 1)
  }

  lemma {:induction false} Pow2Adds(i: nat, j: nat)
    ensures Pow2(i + j) == Pow2(i) * Pow2(j)
  {
    if i > 0 {
      Pow2Adds(i - 1, j);
      assert Pow2(i) == 2 * Pow2(i - 1) && Pow2(i + j) == 2 * Pow2(i - 1 + j);
      hide Pow2;
      DoubledProduct(Pow2(i - 1), Pow2(j));
    }
  }

  lemma DoubledProduct(p: nat, q: nat)
    ensures (2 * p) * q == 2 * (p * q)
  {
  }

  lemma {:induction false} Pow2Grows(i: nat, j: nat)
    requires i <= j
    ensures Pow2(i) <= Pow2(j)
    decreases j
  {
    if i < j {
      Pow2Grows(i, j - 1);
    }
  }

  const TWO_31 := 0x8000_0000
  const TWO_32 := 0x1_0000_0000
  const TWO_52 := 0x10_0000_0000_0000
  const TWO_53 := 0x20_0000_0000_0000
  const TWO_63 := 0x8000_0000_0000_0000
  const TWO_64 := 0x1_0000_0000_0000_0000
  const TWO_127 := 0x8000_0000_0000_0000_0000_0000_0000_0000
  const BIAS := 1023
  const SIGNIFICAND_BITS: nat := 52

  lemma Constants()
    ensures Pow2(52) == TWO_52 && Pow2(53) == TWO_53 && Pow2(75) == 0x800_0000_0000_0000_0000 && Pow2(127) == TWO_127
  {
    SmallPowers();
    hide Pow2;
    Pow2Adds(10, 13);
    Pow2Adds(13, 13);
    Pow2Adds(26, 26);
    Pow2Adds(52, 23);
    Pow2Adds(52, 75);
    Pow2Adds(52, 1);
  }

  lemma SmallPowers()
    ensures Pow2(1) == 2 && Pow2(10) == 1024 && Pow2(13) == 8192
  {
  }

  /** Section 3.4 of IEEE 754-2008: a 64-bit pattern as sign, biased exponent and trailing significand. */
  datatype Pattern = Pattern(negative: bool, biased: nat, trailing: nat) {
    ghost predicate Valid() {
      biased < 2048 && trailing < TWO_52
    }

    function Bits(): nat {
      (if negative then TWO_63 else 0) + biased * TWO_52 + trailing
    }
  }

  /** The outcome of the conversion: a shift out of the range of the type has no defined result. */
  datatype Fixed = Defined(value: int) | Undefined

  /**
   * The conversion of a pattern, given as its 64 bits, to a 128-bit integer.
   * Masks and shifts of unsigned words are written as the remainders,
   * quotients and products that they are.
   */
  function Fix(a: nat): Fixed {
    var abs := a % TWO_63;
    var negative := (a / TWO_63) % 2 == 1;
    var exponent := ToInt32((abs / TWO_52 - BIAS) % TWO_64);
    var significand := abs % TWO_52 + TWO_52;
    Convert(negative, exponent, significand)
  }

  function Convert(negative: bool, exponent: int, significand: nat): Fixed {
    if exponent < 0 then Defined(0)
    else if exponent >= 128 then Defined(if negative then -TWO_127 else TWO_127 - 1)
    else if exponent < SIGNIFICAND_BITS then Defined(Signed(negative, significand / Pow2(SIGNIFICAND_BITS - exponent)))
    else
      var shifted := significand * Pow2(exponent - SIGNIFICAND_BITS);
      if shifted < TWO_127 then Defined(Signed(negative, shifted)) else Undefined
  }

  function Signed(negative: bool, magnitude: int): int {
    if negative then -magnitude else magnitude
  }

  /** A 64-bit word assigned to a 32-bit signed variable. */
  function ToInt32(w: nat): (i: int)
    ensures -TWO_31 <= i < TWO_31 && (w - i) % TWO_32 == 0
  {
    var low := w % TWO_32;
    if low < TWO_31 then low else low - TWO_32
  }

  /** The conversion depends on the fields of the pattern in the expected way. */
  lemma FixOfPattern(p: Pattern)
    requires p.Valid()
    ensures Fix(p.Bits()) == Convert(p.negative, p.biased - BIAS, p.trailing + TWO_52)
  {
    hide Convert;
    var a := p.Bits();
    assert a % TWO_63 == p.biased * TWO_52 + p.trailing && ((a / TWO_63) % 2 == 1 <==> p.negative);
    assert (a % TWO_63) / TWO_52 == p.biased && (a % TWO_63) % TWO_52 == p.trailing;
    assert ToInt32((p.biased - BIAS) % TWO_64) == p.biased - BIAS;
  }

  /** The power of two with an exponent of either sign. */
  ghost function PowR(q: int): (x: real)
    ensures x > 0.0
  {
    if q >= 0 then Pow2(q) as real else 1.0 / (Pow2(-q) as real)
  }

  /** The number that a finite pattern denotes, subnormal ones included. */
  ghost function Magnitude(p: Pattern): (x: real)
    requires p.Valid()
    ensures x >= 0.0
  {
    if p.biased == 0 then Scaled(p.trailing, 1 - BIAS - 52) else Scaled(p.trailing + TWO_52, p.biased - BIAS - 52)
  }

  ghost function Scaled(m: nat, q: int): (x: real)
    ensures x >= 0.0
  {
    MulNonNegative(m as real, PowR(q));
    m as real * PowR(q)
  }

  ghost function Denoted(p: Pattern): real
    requires p.Valid()
  {
    if p.negative then -Magnitude(p) else Magnitude(p)
  }

  lemma MulNonNegative(x: real, y: real)
    requires x >= 0.0 && y >= 0.0
    ensures x * y >= 0.0
  {
  }

  lemma MulAtMost(x: real, y: real, z: real)
    requires x <= y && z >= 0.0
    ensures x * z <= y * z
  {
  }

  /** `r` is `x` with its fraction dropped. */
  ghost predicate Truncates(r: int, x: real) {
    if x >= 0.0 then r as real <= x < r as real + 1.0 else r as real - 1.0 < x <= r as real
  }

  lemma TruncatesSigned(negative: bool, r: nat, x: real)
    requires x >= 0.0 && Truncates(r, x)
    ensures Truncates(Signed(negative, r), if negative then -x else x)
  {
  }

  lemma TruncationUnique(r: int, t: int, x: real)
    requires Truncates(r, x) && Truncates(t, x)
    ensures r == t
  {
  }

  lemma TruncationMonotone(r: int, t: int, x: real, y: real)
    requires Truncates(r, x) && Truncates(t, y) && x <= y
    ensures r <= t
  {
  }

  /** A right shift truncates the scaled significand. */
  lemma ShiftRightTruncates(m: nat, k: nat, q: int)
    requires k > 0 && q == -(k as int)
    ensures Truncates(m / Pow2(k), Scaled(m, q))
  {
    var d := Pow2(k);
    assert Scaled(m, q) * d as real == m as real by {
      TimesInverse(m as real, d as real);
    }
    hide Scaled;
    QuotientTruncates(m, d, Scaled(m, q));
  }

  lemma TimesInverse(x: real, d: real)
    requires d > 0.0
    ensures (x * (1.0 / d)) * d == x
  {
  }

  lemma QuotientTruncates(m: nat, d: nat, x: real)
    requires d > 0 && x >= 0.0 && x * d as real == m as real
    ensures Truncates(m / d, x)
  {
    QuotientBounds(m, d);
    CancelAtMost((m / d) as real, x, d as real);
    CancelLess(x, (m / d) as real + 1.0, d as real);
  }

  lemma CancelAtMost(x: real, y: real, z: real)
    requires x * z <= y * z && z > 0.0
    ensures x <= y
  {
    if y < x {
      MulLess(y, x, z);
    }
  }

  lemma CancelLess(x: real, y: real, z: real)
    requires x * z < y * z && z > 0.0
    ensures x < y
  {
    if y <= x {
      MulAtMost(y, x, z);
    }
  }

  lemma QuotientBounds(m: nat, d: nat)
    requires d > 0
    ensures (m / d) as real * d as real <= m as real
    ensures m as real < ((m / d) as real + 1.0) * d as real
  {
    var q := m / d;
    assert m == q * d + m % d;
    assert (q * d) as real == q as real * d as real;
    assert ((q + 1) * d) as real == (q as real + 1.0) * d as real;
  }

  lemma MulLess(x: real, y: real, z: real)
    requires x < y && z > 0.0
    ensures x * z < y * z
  {
  }

  /** A left shift is exact. */
  lemma ShiftLeftExact(m: nat, k: nat)
    ensures Scaled(m, k) == (m * Pow2(k)) as real
  {
  }

  /** Below one, nothing is left. */
  lemma SmallTruncates(m: nat, q: int)
    requires m < TWO_53 && q <= -53
    ensures Truncates(0, Scaled(m, q))
  {
    var k: nat := -q;
    ShiftRightTruncates(m, k, q);
    Constants();
    Pow2Grows(53, k);
    assert m < Pow2(k);
    SmallQuotient(m, Pow2(k));
  }

  lemma SmallQuotient(m: nat, d: nat)
    requires m < d
    ensures m / d == 0
  {
  }

  lemma ShiftedInRange(m: nat, k: nat)
    requires TWO_52 <= m < TWO_53
    ensures k <= 74 ==> m * Pow2(k) < TWO_127
    ensures k >= 75 ==> m * Pow2(k) >= TWO_127
  {
    Constants();
    if k <= 74 {
      Pow2Grows(k, 74);
      var p := Pow2(74);
      assert Pow2(75) == 2 * p;
      MulMono(m, TWO_53 - 1, Pow2(k), p);
    } else {
      Pow2Grows(75, k);
      MulMono(TWO_52, m, Pow2(75), Pow2(k));
    }
  }

  /** The magnitude that the conversion computes, for a value that fits. */
  lemma ConvertTruncates(p: Pattern)
    requires p.Valid() && p.biased - BIAS <= 126
    ensures var r := Convert(false, p.biased - BIAS, p.trailing + TWO_52);
            r.Defined? && 0 <= r.value < TWO_127 && Truncates(r.value, Magnitude(p))
  {
    hide Truncates, Scaled, Pow2;
    var e, m := p.biased - BIAS, p.trailing + TWO_52;
    if e < 0 {
      SmallTruncates(p.trailing, 1 - BIAS - 52);
      SmallTruncates(m, e - 52);
    } else if e < 52 {
      var k: nat := 52 - e;
      ShiftRightTruncates(m, k, e - 52);
      QuotientAtMost(m, Pow2(k));
    } else {
      var k: nat := e - 52;
      ShiftedInRange(m, k);
      ShiftLeftExact(m, k);
      ExactTruncates(m * Pow2(k));
    }
  }

  lemma QuotientAtMost(m: nat, d: nat)
    requires d > 0
    ensures 0 <= m / d <= m
  {
    DivisionParts(m, d, m / d, m % d);
  }

  lemma DivisionParts(m: int, d: int, q: int, r: int)
    requires m >= 0 && d > 0 && m == q * d + r && 0 <= r < d
    ensures 0 <= q <= m
  {
    if q >= 0 {
      MulMono(q, q, 1, d);
    }
  }

  lemma ExactTruncates(n: nat)
    ensures Truncates(n, n as real)
  {
  }

  lemma ConvertSign(negative: bool, e: int, m: nat)
    requires e < 128
    ensures var r, s := Convert(false, e, m), Convert(negative, e, m);
            (r.Defined? <==> s.Defined?) && (r.Defined? ==> s.value == Signed(negative, r.value))
  {
  }

  /** Section 5.8 of IEEE 754-2008: up to exponent 126 the result is the denoted number rounded toward zero. */
  lemma FixTruncates(p: Pattern)
    requires p.Valid() && p.biased - BIAS <= 126
    ensures var r := Fix(p.Bits());
            r.Defined? && -TWO_127 < r.value < TWO_127 && Truncates(r.value, Denoted(p))
  {
    hide Convert, Truncates, Magnitude;
    FixOfPattern(p);
    ConvertTruncates(p);
    ConvertSign(p.negative, p.biased - BIAS, p.trailing + TWO_52);
    TruncatesSigned(p.negative, Convert(false, p.biased - BIAS, p.trailing + TWO_52).value, Magnitude(p));
  }

  /** From exponent 128 on, infinities and NaNs included, the result is the bound of the pattern's sign; a number is out of range. */
  lemma FixSaturates(p: Pattern)
    requires p.Valid() && p.biased - BIAS >= 128
    ensures Fix(p.Bits()) == Defined(if p.negative then -TWO_127 else TWO_127 - 1)
    ensures p.biased < 2047 ==> Magnitude(p) >= (2 * TWO_127) as real
  {
    FixOfPattern(p);
    var m, k := p.trailing + TWO_52, p.biased - BIAS - 52;
    ShiftLeftExact(m, k);
    Constants();
    Pow2Grows(76, k);
    var d := Pow2(75);
    assert Pow2(76) == 2 * d;
    MulMono(TWO_52, m, Pow2(76), Pow2(k));
  }

  /** Exactly the numbers with exponent 127 have no defined result. */
  lemma FixUndefinedIff(p: Pattern)
    requires p.Valid()
    ensures Fix(p.Bits()).Undefined? <==> p.biased - BIAS == 127
  {
    hide Pow2;
    FixOfPattern(p);
    if 52 <= p.biased - BIAS {
      ShiftedInRange(p.trailing + TWO_52, p.biased - BIAS - 52);
    }
  }

  /** Flipping the sign bit negates the result. */
  lemma FlipNegates(p: Pattern)
    requires p.Valid() && p.biased - BIAS <= 126
    ensures var r, s := Fix(p.Bits()), Fix(p.(negative := !p.negative).Bits());
            r.Defined? && s.Defined? && s.value == -r.value
  {
    hide Convert;
    FixTruncates(p);
    FixOfPattern(p);
    FixOfPattern(p.(negative := !p.negative));
    ConvertSign(p.negative, p.biased - BIAS, p.trailing + TWO_52);
    ConvertSign(!p.negative, p.biased - BIAS, p.trailing + TWO_52);
  }

  /** The conversion preserves the order of the denoted numbers. */
  lemma FixMonotone(p: Pattern, q: Pattern)
    requires p.Valid() && q.Valid() && p.biased - BIAS <= 126 && q.biased - BIAS <= 126
    requires Denoted(p) <= Denoted(q)
    ensures Fix(p.Bits()).Defined? && Fix(q.Bits()).Defined? && Fix(p.Bits()).value <= Fix(q.Bits()).value
  {
    FixTruncates(p);
    FixTruncates(q);
    hide Denoted, Fix;
    TruncationMonotone(Fix(p.Bits()).value, Fix(q.Bits()).value, Denoted(p), Denoted(q));
  }

  /** A pattern that denotes an integer below 2 to the 127th converts to that integer. */
  lemma IntegersConvertToThemselves(p: Pattern, n: int)
    requires p.Valid() && p.biased - BIAS <= 126 && Denoted(p) == n as real
    ensures Fix(p.Bits()) == Defined(n)
  {
    hide Denoted, Fix;
    FixTruncates(p);
    assert Truncates(n, n as real);
    TruncationUnique(Fix(p.Bits()).value, n, n as real);
  }
}
