/** Facts about quotients and remainders that the solver does not find by itself. */
module Division {

  lemma AtLeast(d: int, m: nat)
    ensures (d >= 1 ==> d * m >= m) && (d <= -1 ==> d * m <= 0 - m)
  {
    if d >= 1 { assert (d - 1) * m >= 0; }
    if d <= -1 { assert (-1 - d) * m >= 0; }
  }

  lemma Distribute(p: int, q: int, m: int)
    ensures (p - q) * m == p * m - q * m
  {
  }

  /** Quotient and remainder are unique. */
  lemma Divided(x: nat, m: nat, q: nat, r: nat)
    requires m > 0 && x == q * m + r && r < m
    ensures x / m == q && x % m == r
  {
    assert x == x / m * m + x % m;
    Distribute(x / m, q, m);
    AtLeast(x / m - q, m);
  }

  lemma Multiple(q: nat, p: nat)
    requires p > 0
    ensures q * p % p == 0 && q * p / p == q
  {
    Divided(q * p, p, q, 0);
  }

  /** A divisor of a divisor divides. */
  lemma Factor(n: nat, d: nat, p: nat, e: nat)
    requires p > 0 && d == e * p && d > 0 && n % d == 0
    ensures n % p == 0
  {
    var q := n / d;
    Regrouped(q, e, p);
    Multiple(q * e, p);
  }

  lemma Regrouped(q: nat, e: nat, p: nat)
    ensures q * (e * p) == (q * e) * p
  {
  }
}
