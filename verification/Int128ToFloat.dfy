/** The conversion of 128-bit integers to binary64, rounding to nearest with ties to even. */
module Int128ToFloat {
  import opened Arithmetic
  import opened Float64

  const MANTISSA_DIGITS: nat := 53

  /** The number of significant binary digits. */
  function Digits(n: nat): nat {
    if n == 0 then 0 else 1 + Digits(n / 2)
  }

  lemma {:induction false} DigitsBound(n: nat)
    requires n > 0
    ensures Digits(n) > 0 && Pow2(Digits(n) - 1) <= n < Pow2(Digits(n))
  {
    if n > 1 {
      DigitsBound(n / 2);
    }
  }

  /** `t | 1` if `b`. */
  function OrLow(t: nat, b: bool): nat {
    if b && t % 2 == 0 then t + 1 else t
  }

  /** Two more digits than the result keeps; the last one stands for everything that is shifted out. */
  function Guarded(n: nat, digits: nat): nat
    requires digits > MANTISSA_DIGITS
  {
    if digits == MANTISSA_DIGITS + 1 then 2 * n
    else if digits == MANTISSA_DIGITS + 2 then n
    else
      var d := Pow2(digits - (MANTISSA_DIGITS + 2));
      QuotientAtMost(n, d);
      OrLow(n / d, n % d != 0)
  }

  /** The third digit from the right is put into the last one, one is added, and two digits are dropped. */
  function RoundOff(t: nat): nat {
    (OrLow(t, (t / 4) % 2 == 1) + 1) / 4
  }

  /** Significand and exponent. */
  function Rounded(n: nat): (nat, nat)
    requires n > 0
  {
    DigitsBound(n);
    var digits := Digits(n);
    if digits > MANTISSA_DIGITS then
      var m := RoundOff(Guarded(n, digits));
      if (m / TWO_53) % 2 == 1 then (m / 2, digits) else (m, digits - 1)
    else (n * Pow2(MANTISSA_DIGITS - digits), digits - 1)
  }

  /** The bits of the double for an integer whose magnitude fits. */
  function ToDouble(a: int): nat {
    if a == 0 then 0 else
      var (m, e) := Rounded(if a < 0 then -a else a);
      Pattern(a < 0, e + BIAS, m % TWO_52).Bits()
  }

  /** The conversion of a 128-bit integer; negating the least one overflows, which has no defined result. */
  function FromInt(a: int): Fixed {
    if a == -TWO_127 then Undefined else Defined(ToDouble(a))
  }

  /** `m` units of size `p` are closest to `n`, with an even `m` on a tie. */
  ghost predicate NearestEven(m: nat, n: nat, p: nat) {
    var distance := if n >= m * p then n - m * p else m * p - n;
    2 * distance < p || (2 * distance == p && m % 2 == 0)
  }

  /** The guarded number: the quotient, whether the rest reaches one half, whether it exceeds what it then is. */
  ghost predicate Guards(t: nat, q: nat, r: nat, half: nat)
    requires half > 0
  {
    t == 4 * q + (if r >= half then 2 else 0) + (if r % half != 0 then 1 else 0)
  }

  lemma RoundOffNearest(t: nat, n: nat, q: nat, r: nat, half: nat)
    requires half > 0 && n == q * (2 * half) + r && r < 2 * half && Guards(t, q, r, half)
    ensures RoundOff(t) == q || RoundOff(t) == q + 1
    ensures r == 0 ==> RoundOff(t) == q
    ensures NearestEven(RoundOff(t), n, 2 * half)
  {
    RestOfHalf(r, half);
    var up := r >= half && (r % half != 0 || q % 2 == 1);
    assert (t / 4) % 2 == q % 2;
    assert RoundOff(t) == if up then q + 1 else q;
    assert (q + 1) * (2 * half) == q * (2 * half) + 2 * half;
  }

  lemma RestOfHalf(r: nat, half: nat)
    requires half > 0 && r < 2 * half
    ensures r % half == if r >= half then r - half else r
  {
    if r >= half {
      RestIs(r, half, 1, r - half);
    } else {
      RestIs(r, half, 0, r);
    }
  }

  lemma GuardedGuards(n: nat, digits: nat, q: nat, r: nat)
    requires digits > 53 && n == q * Pow2(digits - 53) + r && r < Pow2(digits - 53)
    ensures Guards(Guarded(n, digits), q, r, Pow2(digits - 54))
  {
    var half := Pow2(digits - 54);
    assert Pow2(digits - 53) == 2 * half;
    RestOfHalf(r, half);
    if digits > 55 {
      var d := Pow2(digits - 55);
      assert half == 2 * d;
      GuardedParts(n, q, r, d);
    } else if digits == 55 {
      assert half == 2 by { assert Pow2(1) == 2; }
    } else {
      assert half == 1;
    }
  }

  lemma GuardedParts(n: nat, q: nat, r: nat, d: nat)
    requires d > 0 && n == q * (4 * d) + r && r < 4 * d
    ensures Guards(OrLow(n / d, n % d != 0), q, r, 2 * d)
  {
    var s, low := r / d, r % d;
    DividedBy(r, d);
    QuarterBound(r, d, s, low);
    QuarterParts(n, q, r, d, s, low);
    RestIs(n, d, 4 * q + s, low);
    RestOfHalf(r, 2 * d);
    GuardBits(q, r, d, s, low);
  }

  lemma QuarterParts(n: nat, q: nat, r: nat, d: nat, s: nat, low: nat)
    requires n == q * (4 * d) + r && r == s * d + low
    ensures n == (4 * q + s) * d + low
  {
    assert q * (4 * d) == (4 * q) * d;
    assert (4 * q + s) * d == (4 * q) * d + s * d;
  }

  lemma GuardBits(q: nat, r: nat, d: nat, s: nat, low: nat)
    requires d > 0 && r == s * d + low && low < d && r < 4 * d && s < 4 && (s >= 2 <==> r >= 2 * d)
    requires r % (2 * d) == if r >= 2 * d then r - 2 * d else r
    ensures Guards(OrLow(4 * q + s, low != 0), q, r, 2 * d)
  {
    RestOfQuarters(r, d, s, low);
    hide Guards;
    GuardsAre(OrLow(4 * q + s, low != 0), q, r, 2 * d);
  }

  lemma RestOfQuarters(r: nat, d: nat, s: nat, low: nat)
    requires d > 0 && r == s * d + low && low < d && s < 4 && (s >= 2 <==> r >= 2 * d)
    ensures (if r >= 2 * d then r - 2 * d else r) != 0 <==> s % 2 == 1 || low != 0
  {
    if s == 0 {
    } else if s == 1 {
    } else if s == 2 {
    } else {
      assert s == 3;
    }
  }

  lemma GuardsAre(t: nat, q: nat, r: nat, half: nat)
    requires half > 0 && t == 4 * q + (if r >= half then 2 else 0) + (if r % half != 0 then 1 else 0)
    ensures Guards(t, q, r, half)
  {
  }

  lemma QuarterBound(r: nat, d: nat, s: nat, low: nat)
    requires d > 0 && r == s * d + low && low < d && r < 4 * d
    ensures s < 4
    ensures (s >= 2 <==> r >= 2 * d) && (s % 2 == 1 <==> s * d == (s / 2) * (2 * d) + d)
  {
    if s >= 4 {
      MulMono(4, s, d, d);
    }
    if s == 0 {
    } else if s == 1 {
    } else if s == 2 {
    } else {
      assert s == 3;
    }
  }

  /** How many digits are dropped, and the number that is kept instead. */
  ghost function Unit(n: nat): nat {
    if Digits(n) > 53 then Pow2(Digits(n) - 53) else 1
  }

  /** The rounded number: units that are nearest to `n`, exactly `n` if it is a multiple of the unit. */
  ghost function Kept(n: nat): nat {
    if Digits(n) > 53 then RoundOff(Guarded(n, Digits(n))) else n
  }

  lemma KeptNearest(n: nat)
    requires n > 0
    ensures NearestEven(Kept(n), n, Unit(n))
    ensures Kept(n) * Unit(n) == n <==> n % Unit(n) == 0
    ensures Digits(n) > 53 ==> TWO_52 <= Kept(n) <= TWO_53
  {
    hide Guarded, RoundOff, Digits, NearestEven;
    if Digits(n) > 53 {
      LargeKept(n, Digits(n), Pow2(Digits(n) - 53));
    } else {
      ExactNearest(n);
    }
  }

  lemma ExactNearest(n: nat)
    ensures NearestEven(n, n, 1)
  {
  }

  lemma LargeKept(n: nat, digits: nat, unit: nat)
    requires n > 0 && digits == Digits(n) > 53 && unit == Pow2(digits - 53)
    ensures var m := RoundOff(Guarded(n, digits));
            NearestEven(m, n, unit) && (m * unit == n <==> n % unit == 0) && TWO_52 <= m <= TWO_53
  {
    hide Guarded, RoundOff, Digits, NearestEven;
    var half, q, r := Pow2(digits - 54), n / unit, n % unit;
    assert unit == 2 * half;
    QuotientAtMost(n, unit);
    DividedBy(n, unit);
    hide Pow2;
    GuardedGuards(n, digits, q, r);
    RoundOffNearest(Guarded(n, digits), n, q, r, half);
    QuotientRange(n, digits, q, r);
    KeptExact(n, q, r, unit, RoundOff(Guarded(n, digits)));
  }

  lemma DividedBy(n: nat, d: nat)
    requires d > 0
    ensures n == (n / d) * d + n % d && 0 <= n % d < d
  {
  }

  lemma KeptExact(n: nat, q: nat, r: nat, unit: nat, m: nat)
    requires unit > 0 && n == q * unit + r && r < unit && (m == q || m == q + 1) && (r == 0 ==> m == q)
    ensures m * unit == n <==> r == 0
  {
    assert (q + 1) * unit == q * unit + unit;
  }

  lemma QuotientRange(n: nat, digits: nat, q: nat, r: nat)
    requires n > 0 && digits == Digits(n) > 53 && n == q * Pow2(digits - 53) + r && r < Pow2(digits - 53)
    ensures TWO_52 <= q < TWO_53
  {
    DigitsBound(n);
    Constants();
    var unit := Pow2(digits - 53);
    Pow2Adds(52, digits - 53);
    Pow2Adds(53, digits - 53);
    hide Digits, Pow2;
    if q < TWO_52 {
      MulMono(q, TWO_52 - 1, unit, unit);
    }
    if q >= TWO_53 {
      MulMono(TWO_53, q, unit, unit);
    }
  }

  /** The normalized significand and its exponent stand for the kept units. */
  ghost predicate Normal(n: nat, m: nat, e: nat) {
    && TWO_52 <= m < TWO_53
    && (e < 52 ==> m == n * Pow2(52 - e) && Kept(n) * Unit(n) == n)
    && (e >= 52 ==> m * Pow2(e - 52) == Kept(n) * Unit(n))
    && (e == Digits(n) - 1 || (e == Digits(n) && Digits(n) > 53))
  }

  lemma LargeNormal(n: nat)
    requires n > 0 && Digits(n) > 53
    ensures Normal(n, Rounded(n).0, Rounded(n).1)
  {
    hide Guarded, RoundOff, NearestEven, Digits;
    var digits, m, unit := Digits(n), Kept(n), Unit(n);
    KeptNearest(n);
    TopDigit(m);
    assert Pow2(digits - 52) == 2 * unit;
    CarriedOut(unit);
    hide Pow2;
  }

  lemma CarriedOut(unit: nat)
    ensures TWO_52 * (2 * unit) == TWO_53 * unit
  {
  }

  lemma FewDigitsNormal(n: nat)
    requires n > 0 && Digits(n) <= 53
    ensures Normal(n, Rounded(n).0, Rounded(n).1)
  {
    var digits := Digits(n);
    DigitsBound(n);
    Constants();
    var k: nat := 53 - digits;
    Pow2Adds(digits - 1, k);
    SmallNormal(n, Pow2(digits - 1), Pow2(k));
    hide Digits, Guarded, RoundOff;
  }

  lemma RoundedNormal(n: nat)
    requires n > 0
    ensures Normal(n, Rounded(n).0, Rounded(n).1)
  {
    hide Normal, Rounded;
    if Digits(n) > 53 {
      LargeNormal(n);
    } else {
      FewDigitsNormal(n);
    }
  }

  lemma TopDigit(m: nat)
    requires m <= TWO_53
    ensures (m / TWO_53) % 2 == 1 <==> m == TWO_53
    ensures m == TWO_53 ==> m / 2 == TWO_52
  {
  }

  lemma SmallNormal(n: nat, low: nat, p: nat)
    requires p > 0 && low <= n < 2 * low && low * p == TWO_52
    ensures TWO_52 <= n * p < TWO_53
  {
    MulMono(low, n, p, p);
    MulMono(n, 2 * low - 1, p, p);
    assert (2 * low - 1) * p == 2 * (low * p) - p;
  }

  ghost function ResultOf(a: int): Pattern
    requires a != 0
  {
    var (m, e) := Rounded(if a < 0 then -a else a);
    Pattern(a < 0, e + BIAS, m % TWO_52)
  }

  lemma {:induction false} DigitsAtMost(n: nat, k: nat)
    requires n < Pow2(k)
    ensures Digits(n) <= k
    decreases k
  {
    if n > 0 {
      DigitsAtMost(n / 2, k - 1);
    }
  }

  lemma InRange128(n: nat)
    requires 0 < n <= TWO_127
    ensures Digits(n) <= 128 && (n < TWO_127 ==> Digits(n) <= 127)
  {
    Constants();
    assert Pow2(128) == 2 * Pow2(127);
    DigitsAtMost(n, 128);
    if n < TWO_127 {
      DigitsAtMost(n, 127);
    }
  }

  lemma ResultValid(a: int)
    requires a != 0 && -TWO_127 <= a < TWO_127
    ensures ToDouble(a) == ResultOf(a).Bits() && ResultOf(a).Valid()
    ensures ResultOf(a).biased > 0 && ResultOf(a).trailing + TWO_52 == Rounded(if a < 0 then -a else a).0
  {
    var n := if a < 0 then -a else a;
    RoundedNormal(n);
    InRange128(n);
    LowDigits(Rounded(n).0);
    hide Rounded, Digits, Kept, Unit, Pow2;
  }

  lemma NormalDenotes(n: nat, m: nat, e: nat)
    requires Normal(n, m, e)
    ensures Scaled(m, e - 52) == (Kept(n) * Unit(n)) as real
  {
    hide Digits, Kept, Unit, Scaled, Pow2;
    if e >= 52 {
      ShiftLeftExact(m, e - 52);
    } else {
      ExactShift(n, 52 - e, m, e - 52);
    }
  }

  /** The double denotes the kept units, which are nearest to the integer among numbers with 53 digits. */
  lemma ToDoubleRounds(a: int)
    requires a != 0 && -TWO_127 <= a < TWO_127
    ensures var n := if a < 0 then -a else a;
            && FromInt(a) == (if a == -TWO_127 then Undefined else Defined(ResultOf(a).Bits())) && ResultOf(a).Valid()
            && Denoted(ResultOf(a)) == Signed(a < 0, Kept(n) * Unit(n)) as real
            && NearestEven(Kept(n), n, Unit(n))
  {
    var n := if a < 0 then -a else a;
    KeptNearest(n);
    RoundedNormal(n);
    ResultValid(a);
    NormalDenotes(n, Rounded(n).0, Rounded(n).1);
    hide Rounded, Kept, Unit, NearestEven, Scaled, Normal, ToDouble;
  }

  lemma LowDigits(m: nat)
    requires TWO_52 <= m < TWO_53
    ensures m % TWO_52 == m - TWO_52
  {
  }

  lemma ExactShift(n: nat, k: nat, m: nat, q: int)
    requires k > 0 && q == -(k as int) && m == n * Pow2(k)
    ensures Scaled(m, q) == n as real && m / Pow2(k) == n
  {
    RestIs(m, Pow2(k), n, 0);
    var x, d := n as real, Pow2(k) as real;
    assert m as real == x * d;
    InverseTimes(x, d);
  }

  lemma InverseTimes(x: real, d: real)
    requires d > 0.0
    ensures (x * d) * (1.0 / d) == x
  {
    assert d * (1.0 / d) == 1.0;
    assert (x * d) * (1.0 / d) == x * (d * (1.0 / d));
  }

  lemma ConvertNormal(negative: bool, n: nat, m: nat, e: nat)
    requires Normal(n, m, e) && e <= 127
    ensures var kept := Kept(n) * Unit(n);
            Convert(negative, e, m) == if kept < TWO_127 then Defined(Signed(negative, kept)) else Undefined
  {
    hide Digits, Kept, Unit, Pow2;
    if e < 52 {
      ExactShift(n, 52 - e, m, e - 52);
    } else {
      ShiftedInRange(m, e - 52);
    }
  }

  lemma LeastUnit()
    ensures Digits(TWO_127) == 128 && Pow2(75) * TWO_52 == TWO_127 && TWO_127 % Unit(TWO_127) == 0
  {
    hide Digits, Pow2;
    Constants();
    DigitsBound(TWO_127);
    InRange128(TWO_127);
    var d := Digits(TWO_127);
    if d <= 127 {
      Pow2Grows(d, 127);
    }
  }

  lemma TooLarge(m: nat)
    requires m >= TWO_52
    ensures m * Pow2(76) > TWO_127
  {
    Constants();
    assert Pow2(76) == 2 * Pow2(75);
    hide Pow2;
    MulMono(TWO_52, m, Pow2(76), Pow2(76));
  }

  /** No carry comes out of rounding 2 to the 127th. */
  lemma LeastExponent(m: nat, e: nat)
    requires Normal(TWO_127, m, e)
    ensures e == 127
  {
    LeastUnit();
    KeptNearest(TWO_127);
    if e == 128 {
      TooLarge(m);
    }
    hide Kept, Unit, Digits, NearestEven, Pow2;
  }

  lemma ExponentInRange(n: nat)
    requires 0 < n <= TWO_127
    ensures Rounded(n).1 <= 127
  {
    RoundedNormal(n);
    InRange128(n);
    hide Rounded, Kept, Unit, Digits, Pow2;
    if n == TWO_127 {
      LeastExponent(Rounded(n).0, Rounded(n).1);
    }
  }

  /** Converting back gives the kept units, unless they come to 2 to the 127th. */
  lemma BackAndForth(a: int)
    requires a != 0 && -TWO_127 <= a < TWO_127
    ensures var n := if a < 0 then -a else a;
            var kept := Kept(n) * Unit(n);
            Fix(ToDouble(a)) == if kept < TWO_127 then Defined(Signed(a < 0, kept)) else Undefined
  {
    var n := if a < 0 then -a else a;
    RoundedNormal(n);
    ExponentInRange(n);
    ResultValid(a);
    FixOfPattern(ResultOf(a));
    ConvertNormal(a < 0, n, Rounded(n).0, Rounded(n).1);
    hide Rounded, Digits, Kept, Unit, Pow2, Fix, ToDouble, Convert, Normal;
  }

  lemma SurvivesIff(a: int, kept: nat, back: Fixed)
    requires -TWO_127 <= a < TWO_127
    requires back == if kept < TWO_127 then Defined(Signed(a < 0, kept)) else Undefined
    ensures back == Defined(a) <==> kept == (if a < 0 then -a else a) && a != -TWO_127
  {
  }

  lemma ZeroSurvives()
    ensures Fix(ToDouble(0)) == Defined(0) && Unit(0) == 1
  {
    hide Fix, Rounded;
    FixOfPattern(Pattern(false, 0, 0));
  }

  /** An integer survives the round trip exactly when it has no digits beyond 53 and is not the least one, minus 2 to the 127th. */
  lemma RoundTripIff(a: int)
    requires -TWO_127 <= a < TWO_127
    ensures var n := if a < 0 then -a else a;
            FromInt(a).Defined? && Fix(FromInt(a).value) == Defined(a) <==> n % Unit(n) == 0 && a != -TWO_127
  {
    hide Fix, ToDouble, Kept, NearestEven, Digits;
    if a == 0 {
      ZeroSurvives();
    } else {
      var n := if a < 0 then -a else a;
      BackAndForth(a);
      KeptNearest(n);
      SurvivesIff(a, Kept(n) * Unit(n), Fix(ToDouble(a)));
    }
  }

  lemma {:induction false} DigitsOfPower(k: nat)
    ensures Digits(Pow2(k)) == k + 1
  {
    if k == 0 {
      assert Digits(1) == 1 + Digits(0);
    } else {
      DigitsOfPower(k - 1);
      assert Pow2(k) / 2 == Pow2(k - 1);
    }
  }

  lemma PowerKept(k: nat)
    ensures Kept(Pow2(k)) * Unit(Pow2(k)) == Pow2(k) && Pow2(k) % Unit(Pow2(k)) == 0
  {
    DigitsOfPower(k);
    hide Kept, Digits, Pow2, NearestEven;
    KeptNearest(Pow2(k));
    if k >= 53 {
      Pow2Adds(52, k - 52);
      RestIs(Pow2(k), Pow2(k - 52), Pow2(52), 0);
    }
  }

  lemma PowerRounded(k: nat)
    ensures Rounded(Pow2(k)) == (TWO_52, k)
  {
    DigitsOfPower(k);
    PowerKept(k);
    hide Rounded, Digits, Kept, Unit, Pow2;
    RoundedNormal(Pow2(k));
    Constants();
    var (m, e) := Rounded(Pow2(k));
    if e < 52 {
      Pow2Adds(k, 52 - k);
    } else {
      PowerSignificand(k, m, e);
    }
  }

  lemma PowerSignificand(k: nat, m: nat, e: nat)
    requires e >= 52 && (e == k || (e == k + 1 && k >= 53)) && m >= TWO_52 && m * Pow2(e - 52) == Pow2(k)
    ensures m == TWO_52 && e == k
  {
    Constants();
    Pow2Adds(52, k - 52);
    if e == k {
      hide Pow2;
      SameFactor(m, TWO_52, Pow2(k - 52));
    } else {
      assert Pow2(e - 52) == 2 * Pow2(k - 52);
      hide Pow2;
      DoubledFactor(m, Pow2(k - 52));
      SameFactor(2 * m, TWO_52, Pow2(k - 52));
    }
  }

  lemma DoubledFactor(a: nat, p: nat)
    ensures a * (2 * p) == (2 * a) * p
  {
  }

  lemma SameFactor(a: nat, b: nat, p: nat)
    requires p > 0 && a * p == b * p
    ensures a == b
  {
  }

  /**
   * Table 3.5 of IEEE 754-2008, in numbers: two to the power `k` has the
   * biased exponent 1023 + k above 52 digits that are zero, under the sign in
   * the top bit, denotes that number, and converts back to it.
   */
  lemma PowerOfTwoBits(k: nat)
    requires k < 127
    ensures FromInt(Pow2(k)) == Defined((1023 + k) * 0x10_0000_0000_0000)
    ensures FromInt(-(Pow2(k) as int)) == Defined(0x8000_0000_0000_0000 + (1023 + k) * 0x10_0000_0000_0000)
    ensures Denoted(Pattern(false, 1023 + k, 0)) == Pow2(k) as real
    ensures Fix((1023 + k) * 0x10_0000_0000_0000) == Defined(Pow2(k))
  {
    PowerBelow(k);
    PowerRounded(k);
    PowerKept(k);
    hide Rounded, Digits, Kept, Unit, Pow2, Fix, Denoted, NearestEven, ToDouble, ResultOf;
    BitsOfPower(Pow2(k), k);
    ToDoubleRounds(Pow2(k));
    RoundTripIff(Pow2(k));
  }

  lemma BitsOfPower(n: nat, k: nat)
    requires n > 0 && Rounded(n) == (TWO_52, k)
    ensures ToDouble(n) == (1023 + k) * 0x10_0000_0000_0000
    ensures ToDouble(-(n as int)) == 0x8000_0000_0000_0000 + (1023 + k) * 0x10_0000_0000_0000
    ensures ResultOf(n) == Pattern(false, 1023 + k, 0)
  {
    hide Rounded;
  }

  lemma PowerBelow(k: nat)
    requires k < 127
    ensures Pow2(k) < TWO_127
  {
    Constants();
    assert Pow2(127) == 2 * Pow2(126);
    Pow2Grows(k, 126);
    hide Pow2;
  }

  /** The patterns of 1 and -1, and of 3, whose second digit is the highest of the trailing ones. */
  lemma SmallIntegers()
    ensures FromInt(1) == Defined(0x3FF0_0000_0000_0000) && Fix(0x3FF0_0000_0000_0000) == Defined(1)
    ensures FromInt(-1) == Defined(0xBFF0_0000_0000_0000) && Fix(0xBFF0_0000_0000_0000) == Defined(-1)
    ensures FromInt(3) == Defined(0x4008_0000_0000_0000) && Fix(0x4008_0000_0000_0000) == Defined(3)
    ensures Denoted(Pattern(false, 0x3FF, 0)) == 1.0 && Pattern(false, 0x3FF, 0).Bits() == 0x3FF0_0000_0000_0000
  {
    PowerOfTwoBits(0);
    PowerKept(0);
    RoundTripIff(-1);
    ThreeRounded();
    RoundTripIff(3);
    hide Rounded, Kept, Fix, Denoted;
  }

  lemma ThreeRounded()
    ensures Rounded(3) == (0x18_0000_0000_0000, 1) && Unit(3) == 1
  {
    assert Digits(3) == 1 + Digits(1) && Digits(1) == 1 + Digits(0);
    Constants();
    assert Pow2(52) == 2 * Pow2(51);
    hide Digits, Pow2;
  }
}
