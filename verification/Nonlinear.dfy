/** Facts about products that the other modules use one at a time. */
module Nonlinear {

  lemma MulLe(a: nat, x: int, y: int)
    requires x <= y
    ensures a * x <= a * y
  {
    assert a * (y - x) >= 0;
  }

  lemma MulLt(a: nat, x: int, y: int)
    requires x < y
    ensures a * x + a <= a * y
  {
    MulLe(a, x + 1, y);
    assert a * (x + 1) == a * x + a;
  }

  lemma Cancel(j: int, x: int, y: int)
    requires j > 0 && j * x == j * y
    ensures x == y
  {
    if x < y { MulLt(j, x, y); }
    if y < x { MulLt(j, y, x); }
  }

  lemma MulAssoc(a: int, b: int, c: int)
    ensures a * (b * c) == (a * b) * c
  {
  }

  lemma DivBound(n: nat, d: nat)
    requires 2 <= d <= n
    ensures 1 <= n / d < n && d * (n / d) <= n
  {
    var q := n / d;
    assert n == d * q + n % d;
    MulLe(q, 2, d);
    assert d * q == q * d;
  }

  lemma DivModUnique(n: nat, m: nat, k: nat)
    requires k < n
    ensures (n * m + k) / n == m && (n * m + k) % n == k
  {
    var x := n * m + k;
    var q := x / n;
    assert x == n * q + x % n;
    if q < m {
      MulLt(n, q, m);
    } else if q > m {
      MulLt(n, m, q);
    }
  }
}
