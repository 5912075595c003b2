/** Quotients and remainders by a divisor that is not a literal. */
module Arithmetic {

  lemma Quotient(n: nat, d: nat, q: nat, r: nat)
    requires n == d * q + r && r < d
    ensures n / d == q && n % d == r
  {
    var p := n / d;
    assert n == d * p + n % d;
    MultiplesApart(d, p, q);
    MultiplesApart(d, q, p);
  }

  lemma {:induction false} MultiplesApart(d: nat, p: nat, q: nat)
    ensures p < q ==> d * p + d <= d * q
  {
    if p < q {
      MultiplesApart(d, p, q - 1);
      OneMoreTime(d, q - 1);
    }
  }

  lemma OneMoreTime(d: nat, q: nat)
    ensures d * (q + 1) == d * q + d
  {
  }

  lemma DivStep(n: nat, d: nat)
    requires 0 < d <= n
    ensures n / d == 1 + (n - d) / d
  {
    var q, r := (n - d) / d, (n - d) % d;
    assert n == d * (q + 1) + r;
    Quotient(n, d, q + 1, r);
  }

  lemma SmallDiv(n: nat, d: nat)
    requires n < d
    ensures n / d == 0
  {
  }

  /** Multiples of the divisor do not change the remainder. */
  lemma AddMultiple(q: nat, d: nat, n: nat)
    requires 0 < d
    ensures (d * q + n) % d == n % d
  {
    var p := n / d;
    assert n == d * p + n % d;
    assert d * (q + p) == d * q + d * p;
    Quotient(d * q + n, d, q + p, n % d);
  }
}
