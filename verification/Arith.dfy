/** Division rounded up, and the smallest count that is not zero. */
module Arith {
  function AtLeastOne(n: nat): nat { if n == 0 then 1 else n }

  function CeilDiv(n: nat, d: nat): nat
    requires d >= 1
  {
    (n + d - 1) / d
  }

  lemma DivAddOne(n: nat, d: nat)
    requires d >= 1
    ensures (n + d) / d == n / d + 1
  {
    var q, r := n / d, n % d;
    assert n + d == (q + 1) * d + r;
    QuotientUnique(n + d, d, q + 1, r);
  }

  lemma QuotientUnique(n: nat, d: nat, q: nat, r: nat)
    requires d >= 1 && r < d && n == q * d + r
    ensures n / d == q
  {
    var p := n / d;
    if p < q {
      MulMonotone(p + 1, q, d);
    } else if q < p {
      MulMonotone(q + 1, p, d);
    }
  }

  lemma MulMonotone(x: nat, y: nat, d: nat)
    requires x <= y
    ensures x * d <= y * d
  {
  }

  lemma CeilDivCovers(n: nat, d: nat)
    requires d >= 1
    ensures n <= CeilDiv(n, d) * d
  {
    var q := (n + d - 1) / d;
    assert (q + 1) * d > n + d - 1;
    assert (q + 1) * d == q * d + d;
  }

  lemma CeilDivBound(n: nat, d: nat, m: nat)
    requires d >= 1 && n <= d * m
    ensures CeilDiv(n, d) <= m
  {
    var q := CeilDiv(n, d);
    if q >= m + 1 {
      MulMonotone(m + 1, q, d);
    }
  }
}
