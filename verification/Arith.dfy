/** Quotients and remainders of variable divisors. */
module Arith {
  lemma Quotient(n: nat, d: nat)
    requires d > 0
    ensures n < d ==> n / d == 0 && n % d == n
    ensures n >= d ==> n / d == 1 + (n - d) / d && n % d == (n - d) % d
  {
    if n >= d {
      var q, r := (n - d) / d, (n - d) % d;
      assert n - d == q * d + r;
      assert n == (q + 1) * d + r by {
        assert (q + 1) * d == q * d + d;
      }
      QuotientIs(q + 1, r, d);
    } else {
      QuotientIs(0, n, d);
    }
  }

  lemma QuotientIs(q: nat, r: nat, d: nat)
    requires r < d
    ensures (q * d + r) / d == q && (q * d + r) % d == r
  {
    var n := q * d + r;
    assert n == n / d * d + n % d;
    var e := q - n / d;
    assert e * d == n % d - r;
    assert e == 0;
  }

  lemma Division(n: nat, d: nat)
    requires d > 0
    ensures n == n / d * d + n % d
  {
  }
}
