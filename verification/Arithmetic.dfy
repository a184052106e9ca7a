/** Products and quotients, away from the definitions that use them. */
module Arithmetic {
  lemma Scale(x: nat, y: nat)
    ensures 10 * (x * y) == x * (10 * y)
  {}

  lemma Weigh(a: nat, d: nat, p: nat)
    ensures a * (10 * p) + d * p == (10 * a + d) * p
  {}

  lemma AtLeast(d: nat, x: nat)
    requires x >= 1
    ensures d * x >= d
  {}

  lemma Quotient(n: nat, d: nat, q: nat, r: nat)
    requires d > 0 && n == d * q + r && r < d
    ensures n / d == q
  {
    var e := n / d;
    assert d * (q - e) == n % d - r;
    if e < q {
      AtLeast(d, q - e);
    } else if e > q {
      AtLeast(d, e - q);
    }
  }

  lemma DivideTwice(n: nat, p: nat)
    requires p >= 1
    ensures n / 10 / p == n / (10 * p)
  {
    var q, r := n / 10 / p, n / 10 % p;
    Quotient(n, 10 * p, q, 10 * r + n % 10);
  }

  lemma Remainder(n: nat, d: nat, q: nat, r: nat)
    requires d > 0 && n == d * q + r && r < d
    ensures n % d == r
  {
    Quotient(n, d, q, r);
  }

  lemma OneTurnOn(k: nat, d: nat)
    requires d > 0
    ensures (k + d) % d == k % d
  {
    Remainder(k + d, d, k / d + 1, k % d);
  }

  /** The only positive multiple up to d is d. */
  lemma LastMultiple(k: nat, d: nat)
    requires 0 < k <= d
    ensures k % d == 0 <==> k == d
  {
    if k < d {
      Remainder(k, d, 0, k);
    } else {
      Remainder(k, d, 1, 0);
    }
  }

  /** A number by its last byte and the others. */
  lemma Bytewise(u: nat)
    ensures u == u / 0x100 * 0x100 + u % 0x100 && u % 0x100 < 0x100
  {}
}
