/** Facts about integer quotients. */
module Quotients {

  lemma PositiveProduct(k: int, d: int)
    requires k >= 1 && d > 0
    ensures k * d >= d
  {
    assert (k - 1) * d >= 0;
  }

  lemma {:induction false} SameQuotient(p: int, x: int, q: int, y: int, d: int)
    requires 0 <= x < d && 0 <= y < d && p * d + x == q * d + y
    ensures p == q
  {
    var up, down := p - q, q - p;
    assert up * d == p * d - q * d;
    assert down * d == q * d - p * d;
    if p > q {
      PositiveProduct(up, d);
    } else if q > p {
      PositiveProduct(down, d);
    }
  }

  lemma {:induction false} QuotientIs(q: int, r: int, d: int)
    requires 0 <= r < d
    ensures (q * d + r) / d == q
  {
    var n := q * d + r;
    var p, rest := n / d, n % d;
    assert p * d + rest == n;
    SameQuotient(p, rest, q, r, d);
  }

  lemma {:induction false} QuotientOrder(m: nat, n: nat, d: int)
    requires m <= n && d > 0
    ensures 0 <= m / d <= n / d
  {
    var p, q := m / d, n / d;
    assert p * d <= m;
    assert n < q * d + d;
    if p > q {
      var k := p - q;
      assert k * d == p * d - q * d;
      PositiveProduct(k, d);
    }
  }
}
