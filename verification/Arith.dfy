/** Division with remainder, with symbolic divisors. */
module Arith {

  lemma DivMod(n: nat, a: nat, b: nat)
    requires a > 0 && b > 0
    ensures a * b > 0 && n % (a * b) == n % a + a * (n / a % b)
  {
    var q := n / a / b;
    var r := n % a + a * (n / a % b);
    assert n == a * (n / a) + n % a;
    assert n / a == b * q + n / a % b;
    assert a * (n / a) == a * b * q + a * (n / a % b);
    assert n == (a * b) * q + r;
    Below(n % a, n / a % b, a, b);
    Unique(n, a * b, q, r);
  }

  lemma Below(x: nat, y: nat, a: nat, b: nat)
    requires x < a && y < b
    ensures x + a * y < a * b
  {
    MulStep(a, y, b);
  }

  lemma {:induction false} MulStep(d: nat, p: nat, q: nat)
    requires p < q
    ensures d * p + d <= d * q
  {
    assert d * q == d * (q - 1) + d;
    if p < q - 1 {
      MulStep(d, p, q - 1);
    }
  }

  lemma Unique(n: nat, d: nat, q: nat, r: nat)
    requires d > 0 && n == d * q + r && r < d
    ensures n % d == r
  {
    var q' := n / d;
    assert n == d * q' + n % d;
    if q < q' {
      MulStep(d, q, q');
    } else if q' < q {
      MulStep(d, q', q);
    }
  }
}
