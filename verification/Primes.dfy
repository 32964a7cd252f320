/** Prime numbers, and the fact the sieve's outer loop depends on to end:
    between any n >= 2 and its square there is another prime. */
module Primes {
  import opened Nonlinear

  predicate IsPrime(n: nat) {
    n >= 2 && forall d :: 2 <= d < n ==> n % d != 0
  }

  ghost predicate Divides(d: nat, n: nat) {
    exists k: nat :: n == d * k
  }

  lemma DividesMod(d: nat, n: nat)
    requires d > 0
    ensures Divides(d, n) <==> n % d == 0
  {
    if n % d == 0 {
      assert n == d * (n / d);
    }
    if Divides(d, n) {
      var k: nat :| n == d * k;
      MultipleMod(d, k);
    }
  }

  lemma MultipleMod(d: nat, k: nat)
    requires d > 0
    ensures (d * k) % d == 0 && (d * k) / d == k
  {
    var n := d * k;
    var q, r := n / d, n % d;
    assert n == d * q + r;
    if k > q {
      MulLt(d, q, k);
    }
    if k < q {
      MulLt(d, k, q);
    }
  }

  lemma DividesTransitive(a: nat, b: nat, c: nat)
    requires Divides(a, b) && Divides(b, c)
    ensures Divides(a, c)
  {
    var k: nat, l: nat :| b == a * k && c == b * l;
    assert c == a * (k * l);
  }

  lemma ModTransitive(a: nat, b: nat, c: nat)
    requires a > 0 && b > 0 && b % a == 0 && c % b == 0
    ensures c % a == 0
  {
    DividesMod(a, b);
    DividesMod(b, c);
    DividesTransitive(a, b, c);
    DividesMod(a, c);
  }

  ghost predicate NoDivisorBelow(n: nat, q: nat) {
    forall d :: 2 <= d < q ==> n % d != 0
  }

  lemma NoDivisorAtFirst(n: nat)
    ensures NoDivisorBelow(n, 2)
  {
  }

  lemma NoDivisorNext(n: nat, q: nat)
    requires q >= 2 && NoDivisorBelow(n, q) && n % q != 0
    ensures NoDivisorBelow(n, q + 1)
  {
  }

  /** Every number from 2 on has a least divisor above 1, and that divisor is prime. */
  lemma LeastFactor(n: nat) returns (q: nat)
    requires n >= 2
    ensures IsPrime(q) && n % q == 0 && q <= n
    ensures NoDivisorBelow(n, q)
    ensures !IsPrime(n) ==> q * q <= n && q < n
  {
    hide IsPrime, NoDivisorBelow;
    q := 2;
    NoDivisorAtFirst(n);
    while n % q != 0
      invariant 2 <= q <= n
      invariant NoDivisorBelow(n, q)
      decreases n - q
    {
      NoDivisorNext(n, q);
      q := q + 1;
    }
    LeastIsPrime(n, q);
  }

  lemma LeastIsPrime(n: nat, q: nat)
    requires 2 <= q <= n && n % q == 0 && NoDivisorBelow(n, q)
    ensures IsPrime(q)
    ensures !IsPrime(n) ==> q * q <= n && q < n
  {
    forall d | 2 <= d < q ensures q % d != 0 {
      if q % d == 0 {
        ModTransitive(d, q, n);
      }
    }
    if !IsPrime(n) {
      Cofactor(n, q);
    }
  }

  lemma Cofactor(n: nat, q: nat)
    requires 2 <= q < n && n % q == 0 && NoDivisorBelow(n, q)
    ensures q * q <= n
  {
    var r := n / q;
    assert n == q * r == r * q;
    if r <= 1 { MulLe(q, r, 1); }
    MultipleMod(r, q);
    MulLe(q, q, r);
  }

  // ----- a lower bound on common multiples of 1..n ---------------------------------------

  function Pow(b: nat, e: nat): nat {
    if e == 0 then 1 else b * Pow(b, e - 1)
  }

  function Choose(n: nat, k: nat): nat {
    if k == 0 then 1 else if n == 0 then 0 else Choose(n - 1, k - 1) + Choose(n - 1, k)
  }

  lemma {:induction false} ChooseAbsorb(n: nat, k: nat)
    requires k <= n
    ensures (k + 1) * Choose(n, k + 1) == (n - k) * Choose(n, k)
    ensures n > 0 ==> (n - k) * Choose(n, k) == n * Choose(n - 1, k)
  {
    if n > 0 {
      var c, u := Choose(n - 1, k), Choose(n - 1, k + 1);
      if k < n {
        ChooseAbsorb(n - 1, k);
      } else {
        ChooseZero(n - 1, k);
        ChooseZero(n - 1, k + 1);
      }
      var l := if k == 0 then 0 else Choose(n - 1, k - 1);
      if k > 0 {
        ChooseAbsorb(n - 1, k - 1);
      }
      AbsorbStep(n, k, Choose(n, k), Choose(n, k + 1), l, c, u);
    }
  }

  lemma AbsorbStep(n: int, k: int, a: int, b: int, l: int, c: int, u: int)
    requires a == l + c && b == c + u
    requires (k + 1) * u == (n - 1 - k) * c
    requires k * c == (n - k) * l
    ensures (k + 1) * b == (n - k) * a == n * c
  {
    calc {
      (k + 1) * b;
      (k + 1) * c + (k + 1) * u;
      (k + 1) * c + (n - 1 - k) * c;
      n * c;
    }
    calc {
      (n - k) * a;
      (n - k) * l + (n - k) * c;
      k * c + (n - k) * c;
      n * c;
    }
  }

  lemma {:induction false} ChooseZero(n: nat, k: nat)
    requires n < k
    ensures Choose(n, k) == 0
  {
    if n > 0 {
      ChooseZero(n - 1, k - 1);
      ChooseZero(n - 1, k);
    }
  }

  lemma {:induction false} ChoosePositive(n: nat, k: nat)
    requires k <= n
    ensures Choose(n, k) > 0
  {
    if k > 0 {
      ChoosePositive(n - 1, k - 1);
    }
  }

  ghost predicate CommonMultiple(M: nat, n: nat) {
    forall i :: 1 <= i <= n ==> Divides(i, M)
  }

  /** k * C(r, k) divides every common multiple of 1..n when 1 <= k <= r <= n. */
  lemma {:induction false} HarmonicTriangle(M: nat, n: nat, r: nat, k: nat)
    requires CommonMultiple(M, n) && 1 <= k <= r <= n
    ensures Divides(k * Choose(r, k), M)
    decreases k
  {
    if k == 1 {
      ChooseOne(r);
    } else {
      var j := k - 1;
      HarmonicTriangle(M, n, r - 1, j);
      HarmonicTriangle(M, n, r, j);
      ChooseAbsorb(r, j);
      var c, x := Choose(r, j), j * Choose(r - 1, j);
      var a: nat :| M == x * a;
      var b: nat :| M == (j * c) * b;
      var z := (r - j) * c;
      assert z == k * Choose(r, k);
      TriangleStep(M, r, j, c, Choose(r - 1, j), a, b);
      ChoosePositive(r, j);
      ChoosePositive(r - 1, j);
      TriangleSign(M, r, j, c, Choose(r - 1, j), a, b);
      assert M == z * (a - b);
    }
  }

  lemma TriangleStep(M: int, r: int, j: int, c: int, x: int, a: int, b: int)
    requires j > 0
    requires (r - j) * c == r * x
    requires M == (j * x) * a && M == (j * c) * b
    ensures ((r - j) * c) * (a - b) == M
  {
    var z := (r - j) * c;
    calc {
      j * (z * (a - b));
      (j * z) * a - (j * z) * b;
      { assert j * z == r * (j * x); assert j * z == (r - j) * (j * c); }
      (r * (j * x)) * a - ((r - j) * (j * c)) * b;
      { assert (r * (j * x)) * a == r * M; assert ((r - j) * (j * c)) * b == (r - j) * M; }
      r * M - (r - j) * M;
      j * M;
    }
    Cancel(j, z * (a - b), M);
  }

  lemma TriangleSign(M: nat, r: nat, j: nat, c: nat, x: nat, a: nat, b: nat)
    requires 0 < j < r && c > 0 && x > 0
    requires ((r - j) * c) * (a - b) == M
    ensures a - b >= 0
  {
    var z := (r - j) * c;
    assert z > 0;
    if a - b < 0 {
      MulLt(z, a - b, 0);
    }
  }

  lemma {:induction false} ChooseOne(r: nat)
    ensures Choose(r, 1) == r
  {
    if r > 0 {
      ChooseOne(r - 1);
    }
  }

  lemma {:induction false} MiddleBound(m: nat)
    ensures (m + 1) * Choose(2 * m + 1, m + 1) >= Pow(4, m)
  {
    if m > 0 {
      var l := m - 1;
      MiddleBound(l);
      var r := 2 * l + 1;
      var c := Choose(r, l + 1);
      ChooseAbsorb(r, l);
      Cancel(l + 1, c, Choose(r, l));
      assert Choose(r + 1, l + 1) == 2 * c;
      ChooseAbsorb(r + 1, l + 1);
      var f := Choose(r + 1, l + 2);
      assert Choose(r + 2, l + 2) == 2 * c + f;
      MiddleStep(l, c, f);
    }
  }

  lemma MiddleStep(l: nat, c: nat, f: nat)
    requires (l + 2) * f == (l + 1) * (2 * c)
    ensures (l + 2) * (2 * c + f) >= 4 * ((l + 1) * c)
  {
    calc {
      (l + 2) * (2 * c + f);
      (l + 2) * (2 * c) + (l + 2) * f;
      (l + 2) * (2 * c) + (l + 1) * (2 * c);
      4 * ((l + 1) * c) + 2 * c;
    }
  }

  lemma DivisorBound(d: nat, n: nat)
    requires n > 0 && Divides(d, n)
    ensures d <= n
  {
    var k: nat :| n == d * k;
    if k > 0 {
      MulLe(d, 1, k);
    }
  }

  lemma CommonMultipleLarge(M: nat, m: nat)
    requires M > 0 && CommonMultiple(M, 2 * m + 1)
    ensures M >= Pow(4, m)
  {
    hide CommonMultiple, Choose, Pow;
    HarmonicTriangle(M, 2 * m + 1, 2 * m + 1, m + 1);
    MiddleBound(m);
    DivisorBound((m + 1) * Choose(2 * m + 1, m + 1), M);
  }

  // ----- an upper bound on one common multiple -------------------------------------------

  /** The largest power of q that is at most N. */
  function TopPower(q: nat, N: nat): (r: nat)
    requires q >= 2 && N >= 1
    ensures 1 <= r <= N
  {
    if N < q then 1 else
      DivBound(N, q);
      var t := TopPower(q, N / q);
      MulLe(q, 1, t);
      MulLe(q, t, N / q);
      q * t
  }

  /** Product of the top powers below N of the primes up to n. */
  function Primorial(n: nat, N: nat): (r: nat)
    requires N >= 1
    ensures r >= 1
  {
    if n < 2 then 1
    else if IsPrime(n) then
      var t, s := TopPower(n, N), Primorial(n - 1, N);
      assert t * s >= 1;
      t * s
    else Primorial(n - 1, N)
  }

  lemma {:induction false} PrimorialBound(n: nat, N: nat)
    requires N >= 1 && n >= 1
    ensures Primorial(n, N) <= Pow(N, n - 1)
  {
    if n >= 2 {
      PrimorialBound(n - 1, N);
      var t, s, b := TopPower(n, N), Primorial(n - 1, N), Pow(N, n - 2);
      assert Pow(N, n - 1) == N * b;
      MulLe(N, s, b);
      MulLe(s, 1, N);
      if IsPrime(n) {
        MulLe(s, t, N);
      }
    }
  }

  ghost predicate Smooth(i: nat, n: nat) {
    forall q: nat :: IsPrime(q) && Divides(q, i) ==> q <= n
  }

  lemma {:induction false} SmoothDivides(i: nat, n: nat, N: nat)
    requires 1 <= i <= N && Smooth(i, n)
    ensures Divides(i, Primorial(n, N))
    decreases n, 1
  {
    if i == 1 {
      assert Primorial(n, N) == 1 * Primorial(n, N);
    } else if n < 2 {
      var q := LeastFactor(i);
      DividesMod(q, i);
      assert false;
    } else if IsPrime(n) {
      SplitPower(i, n, N, N);
    } else {
      forall q: nat | IsPrime(q) && Divides(q, i) ensures q <= n - 1 { }
      SmoothDivides(i, n - 1, N);
    }
  }

  lemma {:induction false} SplitPower(i: nat, n: nat, N: nat, K: nat)
    requires IsPrime(n) && 1 <= i <= K <= N && Smooth(i, n)
    ensures Divides(i, TopPower(n, K) * Primorial(n - 1, N))
    decreases n, 0, i
  {
    var s := Primorial(n - 1, N);
    if Divides(n, i) {
      var j: nat :| i == n * j;
      QuotientBound(n, j, K);
      SmoothQuotient(i, n, j);
      SplitPower(j, n, N, K / n);
      var t := TopPower(n, K / n);
      ScaleDivides(n, j, t, s);
    } else {
      SmoothDivides(i, n - 1, N);
      WidenDivides(i, s, TopPower(n, K));
    }
  }

  lemma SmoothQuotient(i: nat, n: nat, j: nat)
    requires i == n * j && Smooth(i, n)
    ensures Smooth(j, n)
  {
    assert i == j * n;
    forall q: nat | IsPrime(q) && Divides(q, j) ensures q <= n {
      DividesTransitive(q, j, i);
    }
  }

  lemma ScaleDivides(n: nat, j: nat, t: nat, s: nat)
    requires Divides(j, t * s)
    ensures Divides(n * j, (n * t) * s)
  {
    var k: nat :| t * s == j * k;
    calc {
      (n * t) * s;
      n * (t * s);
      n * (j * k);
      (n * j) * k;
    }
  }

  lemma WidenDivides(i: nat, s: nat, t: nat)
    requires Divides(i, s)
    ensures Divides(i, t * s)
  {
    var k: nat :| s == i * k;
    assert t * (i * k) == i * (t * k);
  }

  lemma QuotientBound(n: nat, j: nat, K: nat)
    requires n >= 2 && 1 <= n * j <= K
    ensures 1 <= j < n * j && 1 <= j <= K / n && K / n <= K && n <= K
  {
    MulLe(j, 2, n);
    assert j > 0 && n * j == j * n;
    MulLe(n, 1, j);
    if j >= K / n + 1 {
      MulLt(n, K / n, j);
    }
  }

  // ----- the two bounds collide ------------------------------------------------------------

  lemma {:induction false} PowMonotone(a: nat, b: nat, e: nat)
    requires a <= b
    ensures Pow(a, e) <= Pow(b, e)
  {
    if e > 0 {
      PowMonotone(a, b, e - 1);
      var x, y := Pow(a, e - 1), Pow(b, e - 1);
      MulLe(x, a, b);
      assert a * x == x * a && b * x == x * b;
      MulLe(b, x, y);
    }
  }

  lemma {:induction false} PowAdd(b: nat, d: nat, e: nat)
    ensures Pow(b, d + e) == Pow(b, d) * Pow(b, e)
  {
    if d > 0 {
      PowAdd(b, d - 1, e);
      MulAssoc(b, Pow(b, d - 1), Pow(b, e));
    }
  }

  lemma {:induction false} PowPow(b: nat, d: nat, e: nat)
    ensures Pow(Pow(b, d), e) == Pow(b, d * e)
  {
    if e > 0 {
      PowPow(b, d, e - 1);
      PowAdd(b, d, d * (e - 1));
      assert d * e == d + d * (e - 1);
    }
  }

  lemma {:induction false} PowTwoPositive(e: nat)
    ensures Pow(2, e) >= 1
  {
    if e > 0 { PowTwoPositive(e - 1); }
  }

  lemma {:induction false} SquareBelowPow(n: nat)
    requires n >= 4
    ensures n * n <= Pow(2, n)
  {
    if n == 4 {
      assert Pow(2, 4) == 16;
    } else {
      SquareBelowPow(n - 1);
      assert n * n == (n - 1) * (n - 1) + 2 * (n - 1) + 1;
      assert (n - 1) * (n - 1) >= 4 * (n - 1);
    }
  }

  lemma {:induction false} PowTwoStrict(d: nat, e: nat)
    requires d < e
    ensures Pow(2, d) < Pow(2, e)
  {
    if d == 0 {
      PowTwoPositive(e - 1);
    } else {
      PowTwoStrict(d - 1, e - 1);
    }
  }

  lemma SmallSide(n: nat, N: nat)
    requires n >= 4 && N <= n * n
    ensures Pow(N, n - 1) <= Pow(2, n * (n - 1))
  {
    SquareBelowPow(n);
    PowMonotone(N, Pow(2, n), n - 1);
    PowPow(2, n, n - 1);
  }

  lemma CollidingBounds(n: nat, m: nat)
    requires n >= 4 && n * n - 2 <= 2 * m + 1 <= n * n - 1
    ensures Pow(2 * m + 1, n - 1) < Pow(4, m)
  {
    SmallSide(n, 2 * m + 1);
    assert Pow(2, 2) == 4;
    PowPow(2, 2, m);
    assert n * (n - 1) == n * n - n;
    PowTwoStrict(n * (n - 1), 2 * m);
  }

  /** For every n >= 2 some prime lies strictly between n and n * n. */
  lemma PrimeBelowSquare(n: nat) returns (q: nat)
    requires n >= 2
    ensures IsPrime(q) && n < q < n * n
  {
    if n == 2 {
      q := 3;
    } else if n == 3 {
      q := 5;
    } else {
      PrimeGap(n);
      q :| n < q < n * n && IsPrime(q);
    }
  }

  lemma PrimeGap(n: nat)
    requires n >= 4
    ensures exists q :: n < q < n * n && IsPrime(q)
  {
    if forall q :: n < q < n * n ==> !IsPrime(q) {
      var m, N, M := GapMultiple(n);
      PrimorialBound(n, N);
      CollidingBounds(n, m);
      CommonMultipleLarge(M, m);
    }
  }

  lemma GapMultiple(n: nat) returns (m: nat, N: nat, M: nat)
    requires n >= 4 && forall r :: n < r < n * n ==> !IsPrime(r)
    ensures N == 2 * m + 1 && n * n - 2 <= N <= n * n - 1
    ensures M == Primorial(n, N) && CommonMultiple(M, N)
  {
    MulLe(n, 4, n);
    m := (n * n - 2) / 2;
    N := 2 * m + 1;
    M := Primorial(n, N);
    forall i | 1 <= i <= N ensures Divides(i, M) {
      forall r: nat | IsPrime(r) && Divides(r, i) ensures r <= n {
        var k: nat :| i == r * k;
        MulLe(r, 1, k);
      }
      SmoothDivides(i, n, N);
    }
  }
}
