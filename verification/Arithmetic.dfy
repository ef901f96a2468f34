/** The few facts about products, quotients and remainders that the proofs share. */
module Arithmetic {
  lemma MulMonotone(a: int, b: int, w: nat)
    ensures a <= b ==> a * w <= b * w
    ensures a < b ==> a * w + w <= b * w
  {
    var d := b - a;
    assert b * w == a * w + d * w;
    if d >= 1 {
      assert (d - 1) * w >= 0;
      assert d * w == (d - 1) * w + w;
    }
  }

  lemma QuotientBounds(n: int, d: int)
    requires d > 0
    ensures (n / d) * d <= n < (n / d) * d + d
    ensures n >= 0 ==> 0 <= n / d <= n
    ensures n >= 0 ==> (n / d == 0 <==> n < d)
  {
    var q := n / d;
    assert n == q * d + n % d;
    MulMonotone(1, q, d);
    MulMonotone(q, -1, d);
    MulMonotone(1, d, if q >= 0 then q else 0);
  }

  lemma QuotientMonotone(n: int, m: int, d: int)
    requires d > 0 && n <= m
    ensures n / d <= m / d
  {
    QuotientBounds(n, d);
    QuotientBounds(m, d);
    MulMonotone(m / d + 1, n / d, d);
    assert (m / d + 1) * d == (m / d) * d + d;
  }

  lemma QuotientOfShifted(n: int, k: int, d: int)
    requires d > 0
    ensures (n + k * d) / d == n / d + k
  {
    var q := (n + k * d) / d;
    QuotientBounds(n, d);
    QuotientBounds(n + k * d, d);
    assert (n / d + k) * d == (n / d) * d + k * d;
    MulMonotone(q, n / d + k, d);
    MulMonotone(n / d + k, q, d);
  }

  lemma RemainderOfSum(q: nat, r: nat, d: nat)
    requires r < d
    ensures (q * d + r) % d == r
  {
    var m := q * d + r;
    assert m == (m / d) * d + m % d;
    MulMonotone(q, m / d, d);
    MulMonotone(m / d, q, d);
  }
}
