/** Division by a number that is not a constant. */
module Arithmetic {

  lemma MultiplesApart(a: int, b: int, n: int)
    requires n > 0 && a < b
    ensures a * n + n <= b * n
  {
    assert b * n == a * n + n + (b - a - 1) * n;
  }

  /** The quotient of two naturals, by what makes it one. */
  function Quotient(n: nat, d: nat): (q: nat)
    requires d > 0
    ensures q * d <= n < q * d + d
  {
    assert n == n / d * d + n % d;
    assert n / d >= 0 by { if n / d < 0 { MultiplesApart(n / d, 0, d); } }
    n / d
  }

  lemma QuotientIs(n: nat, d: nat, q: nat)
    requires d > 0 && q * d <= n < q * d + d
    ensures Quotient(n, d) == q
  {
    var p := Quotient(n, d);
    if p < q { MultiplesApart(p, q, d); }
    if q < p { MultiplesApart(q, p, d); }
  }
}
