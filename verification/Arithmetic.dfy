/** Facts about products, quotients and remainders. */
module Arithmetic {

  lemma MulMono(a: nat, b: nat, c: nat, d: nat)
    requires a <= b && c <= d
    ensures a * c <= b * d
  {
    assert a * c <= b * c <= b * d;
  }

  lemma DivisionUnique(q: int, r: int, q': int, r': int, d: int)
    requires d > 0 && q * d + r == q' * d + r' && 0 <= r < d && 0 <= r' < d
    ensures q == q' && r == r'
  {
    if q > q' {
      MulMono(1, q - q', d, d);
    } else if q < q' {
      MulMono(1, q' - q, d, d);
    }
  }

  lemma RestIs(n: nat, d: nat, q: nat, r: nat)
    requires d > 0 && n == q * d + r && r < d
    ensures n / d == q && n % d == r
  {
    DivisionUnique(q, r, n / d, n % d, d);
  }
}
