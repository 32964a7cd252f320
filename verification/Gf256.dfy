/** Arithmetic in GF(2^8) with the polynomial 0x11d. */
module Gf256 {
  import opened Nonlinear

  /** What the bit that leaves a byte comes back as. */
  function Comeback(a: bv8): bv8 {
    (0 - (a >> 7)) & 0x1d
  }

  /** Doubling: shift, and add 0x1d for the bit that leaves. */
  function Xtime(b: bv8): bv8 {
    (b << 1) ^ Comeback(b)
  }

  lemma XtimeReduces(b: bv8)
    ensures Xtime(b) == if b & 0x80 != 0 then (b << 1) ^ 0x1d else b << 1
  {
  }

  function XtimeN(i: nat, b: bv8): bv8 {
    if i == 0 then b else Xtime(XtimeN(i - 1, b))
  }

  /** 2^i. */
  function Pow2(i: nat): bv8 {
    XtimeN(i, 1)
  }

  function Shifted(a: bv8, k: nat): bv8
    requires k < 8
  {
    match k
    case 0 => a case 1 => a >> 1 case 2 => a >> 2 case 3 => a >> 3
    case 4 => a >> 4 case 5 => a >> 5 case 6 => a >> 6 case _ => a >> 7
  }

  /** All ones when bit k of a is set, else zero. */
  function Spread(a: bv8, k: nat): bv8
    requires k < 8
  {
    0 - (Shifted(a, k) & 1)
  }

  /** The sum of x^k * b over the set bits k < n of a. */
  function MulBits(n: nat, a: bv8, b: bv8): bv8
    requires n <= 8
  {
    if n == 0 then 0 else MulBits(n - 1, a, b) ^ (Spread(a, n - 1) & XtimeN(n - 1, b))
  }

  /** Polynomial multiplication modulo 0x11d. */
  function Mul(a: bv8, b: bv8): bv8 {
    MulBits(8, a, b)
  }

  /** The sum of two bytes, to keep its bits out of the proofs that only pass it on. */
  function Plus(a: bv8, b: bv8): bv8 {
    a ^ b
  }

  lemma XtimeAdds(a: bv8, b: bv8)
    ensures Xtime(a ^ b) == Xtime(a) ^ Xtime(b)
  {
  }

  lemma XtimeInjective(a: bv8, b: bv8)
    requires Xtime(a) == Xtime(b)
    ensures a == b
  {
  }

  lemma XtimePlus(a: bv8, b: bv8)
    ensures Xtime(Plus(a, b)) == Plus(Xtime(a), Xtime(b))
  {
    hide Xtime;
    XtimeAdds(a, b);
  }

  lemma {:induction false} XtimeNPlus(n: nat, a: bv8, b: bv8)
    ensures XtimeN(n, Plus(a, b)) == Plus(XtimeN(n, a), XtimeN(n, b))
  {
    hide Xtime, Plus;
    if n > 0 {
      XtimeNPlus(n - 1, a, b);
      XtimePlus(XtimeN(n - 1, a), XtimeN(n - 1, b));
    }
  }

  lemma {:induction false} XtimeNZero(n: nat)
    ensures XtimeN(n, 0) == 0
  {
    if n > 0 {
      XtimeNZero(n - 1);
    }
  }

  lemma XorPairs(p: bv8, q: bv8, r: bv8, s: bv8)
    ensures (p ^ q) ^ (r ^ s) == (p ^ r) ^ (q ^ s)
  {
  }

  lemma ShiftedAdds(a: bv8, c: bv8, k: nat)
    requires k < 8
    ensures Shifted(a ^ c, k) == Shifted(a, k) ^ Shifted(c, k)
  {
    match k
    case 0 => case 1 => case 2 => case 3 => case 4 => case 5 => case 6 => case _ =>
  }

  lemma LowBitAdds(x: bv8, y: bv8)
    ensures 0 - ((x ^ y) & 1) == (0 - (x & 1)) ^ (0 - (y & 1))
  {
    assert 0 - (x & 1) == if x & 1 == 0 then 0 else 0xFF;
    assert 0 - (y & 1) == if y & 1 == 0 then 0 else 0xFF;
  }

  lemma AndAdds(x: bv8, y: bv8, t: bv8)
    ensures (x ^ y) & t == (x & t) ^ (y & t)
  {
  }

  lemma SpreadAdds(a: bv8, c: bv8, k: nat, t: bv8)
    requires k < 8
    ensures Spread(a ^ c, k) & t == (Spread(a, k) & t) ^ (Spread(c, k) & t)
  {
    ShiftedAdds(a, c, k);
    LowBitAdds(Shifted(a, k), Shifted(c, k));
    AndAdds(Spread(a, k), Spread(c, k), t);
  }

  lemma {:induction false} MulBitsAdds(n: nat, a: bv8, c: bv8, b: bv8)
    requires n <= 8
    ensures MulBits(n, a ^ c, b) == MulBits(n, a, b) ^ MulBits(n, c, b)
  {
    if n > 0 {
      var t := XtimeN(n - 1, b);
      MulBitsAdds(n - 1, a, c, b);
      SpreadAdds(a, c, n - 1, t);
      XorPairs(MulBits(n - 1, a, b), MulBits(n - 1, c, b), Spread(a, n - 1) & t, Spread(c, n - 1) & t);
    }
  }

  lemma SpreadShift(a: bv8, k: nat)
    requires k < 8
    ensures Spread(a << 1, k) == if k == 0 then 0 else Spread(a, k - 1)
  {
  }

  lemma SpreadXtime(a: bv8, k: nat, t: bv8)
    requires k < 8
    ensures Xtime(Spread(a, k) & t) == Spread(a, k) & Xtime(t)
  {
    assert Spread(a, k) == 0 || Spread(a, k) == 0xFF;
  }

  lemma ShiftStart(a: bv8, b: bv8)
    ensures MulBits(1, a << 1, b) == Xtime(MulBits(0, a, b))
  {
    SpreadShift(a, 0);
    MulBitsNext(0, a << 1, b);
  }

  lemma {:induction false} MulBitsShift(n: nat, a: bv8, b: bv8)
    requires n < 8
    ensures MulBits(n + 1, a << 1, b) == Xtime(MulBits(n, a, b))
    decreases n
  {
    hide Plus, Spread, Xtime, MulBits, XtimeN;
    if n == 0 {
      ShiftStart(a, b);
    } else {
      SpreadShift(a, n);
      MulBitsNext(n, a << 1, b);
      MulBitsNext(n - 1, a, b);
      MulBitsShift(n - 1, a, b);
      ShiftStep(a, n - 1, XtimeN(n - 1, b), MulBits(n - 1, a, b));
    }
  }

  lemma ShiftStep(a: bv8, k: nat, t: bv8, u: bv8)
    requires k < 8
    ensures Plus(Xtime(u), Spread(a, k) & Xtime(t)) == Xtime(Plus(u, Spread(a, k) & t))
  {
    hide Xtime, Spread;
    SpreadXtime(a, k, t);
    XtimeAdds(u, Spread(a, k) & t);
  }

  lemma PowersOfX(b: bv8)
    ensures XtimeN(8, b) == b ^ XtimeN(2, b) ^ XtimeN(3, b) ^ XtimeN(4, b)
  {
    var b4 := Xtime(Xtime(Xtime(Xtime(b))));
    assert XtimeN(1, b) == Xtime(XtimeN(0, b)) == Xtime(b);
    assert XtimeN(3, b) == Xtime(XtimeN(2, b));
    assert XtimeN(5, b) == Xtime(XtimeN(4, b)) == Xtime(b4);
    assert XtimeN(7, b) == Xtime(XtimeN(6, b)) == Xtime(Xtime(Xtime(b4)));
  }

  lemma NextBit(n: nat, a: bv8, b: bv8)
    requires n < 8
    ensures Spread(a, n) == 0xFF ==> MulBits(n + 1, a, b) == MulBits(n, a, b) ^ XtimeN(n, b)
    ensures Spread(a, n) == 0 ==> MulBits(n + 1, a, b) == MulBits(n, a, b)
  {
  }

  /** m is 1 + x^2 times b. */
  predicate LowTerms(m: bv8, b: bv8) {
    m == b ^ XtimeN(2, b)
  }

  /** m' is x^3 + x^4 times b more than m. */
  predicate MidTerms(m: bv8, m': bv8, b: bv8) {
    m' == m ^ XtimeN(3, b) ^ XtimeN(4, b)
  }

  lemma ReducerLow(b: bv8)
    ensures LowTerms(MulBits(3, 0x1d, b), b)
  {
    NextBit(0, 0x1d, b);
    NextBit(1, 0x1d, b);
    NextBit(2, 0x1d, b);
  }

  lemma ReducerMid(b: bv8)
    ensures MidTerms(MulBits(3, 0x1d, b), MulBits(5, 0x1d, b), b)
  {
    NextBit(3, 0x1d, b);
    NextBit(4, 0x1d, b);
  }

  lemma ReducerHigh(b: bv8)
    ensures Mul(0x1d, b) == MulBits(5, 0x1d, b)
  {
    NextBit(5, 0x1d, b);
    NextBit(6, 0x1d, b);
    NextBit(7, 0x1d, b);
  }

  lemma ReducerTerms(m3: bv8, m5: bv8, b: bv8)
    requires LowTerms(m3, b) && MidTerms(m3, m5, b)
    ensures m5 == XtimeN(8, b)
  {
    PowersOfX(b);
  }

  /** x^8 is x^4 + x^3 + x^2 + 1. */
  lemma ReducerProduct(b: bv8)
    ensures Mul(0x1d, b) == XtimeN(8, b)
  {
    hide *;
    ReducerLow(b);
    ReducerMid(b);
    ReducerHigh(b);
    ReducerTerms(MulBits(3, 0x1d, b), MulBits(5, 0x1d, b), b);
  }

  lemma NoProduct(b: bv8)
    ensures Mul(0, b) == 0
  {
    MulZero(8, b);
  }

  lemma MaskAll(m: bv8)
    ensures 0xFF & m == m && 0 & m == 0
  {
  }

  /** The bit that leaves comes back as 0x1d. */
  lemma TopTerm(a: bv8, b: bv8)
    ensures Mul(Comeback(a), b) == Spread(a, 7) & XtimeN(8, b)
  {
    hide *;
    TopBit(a);
    NoProduct(b);
    ReducerProduct(b);
    MaskAll(XtimeN(8, b));
  }

  lemma XtimeParts(a: bv8)
    ensures Xtime(a) == Plus(a << 1, Comeback(a))
  {
  }

  lemma MulXtimeLeft(a: bv8, b: bv8)
    ensures Mul(Xtime(a), b) == Plus(Xtime(MulBits(7, a, b)), Mul(Comeback(a), b))
  {
    hide Plus, Xtime, MulBits, XtimeN, Comeback;
    XtimeParts(a);
    MulBitsShift(7, a, b);
    MulOfSum(8, Xtime(a), a << 1, Comeback(a), b, Xtime(MulBits(7, a, b)));
  }

  lemma MulOfSum(n: nat, s: bv8, x: bv8, c: bv8, b: bv8, y: bv8)
    requires n <= 8 && s == Plus(x, c) && MulBits(n, x, b) == y
    ensures MulBits(n, s, b) == Plus(y, MulBits(n, c, b))
  {
    hide MulBits;
    MulBitsAdds(n, x, c, b);
  }

  lemma MulBitsNext(n: nat, a: bv8, b: bv8)
    requires n < 8
    ensures MulBits(n + 1, a, b) == Plus(MulBits(n, a, b), Spread(a, n) & XtimeN(n, b))
    ensures XtimeN(n + 1, b) == Xtime(XtimeN(n, b))
  {
    hide Spread, Xtime;
  }

  lemma MulXtimeRight(a: bv8, b: bv8)
    ensures Xtime(Mul(a, b)) == Plus(Xtime(MulBits(7, a, b)), Spread(a, 7) & XtimeN(8, b))
  {
    hide Plus, Xtime, Spread, MulBits, XtimeN;
    MulBitsNext(7, a, b);
    ShiftStep(a, 7, XtimeN(7, b), MulBits(7, a, b));
  }

  lemma MulXtime(a: bv8, b: bv8)
    ensures Mul(Xtime(a), b) == Xtime(Mul(a, b))
  {
    hide *;
    MulXtimeLeft(a, b);
    MulXtimeRight(a, b);
    TopTerm(a, b);
  }

  lemma TopBit(a: bv8)
    ensures (Spread(a, 7) == 0 && Comeback(a) == 0) || (Spread(a, 7) == 0xFF && Comeback(a) == 0x1d)
  {
  }

  lemma {:induction false} MulZero(n: nat, b: bv8)
    requires n <= 8
    ensures MulBits(n, 0, b) == 0
  {
    if n > 0 {
      MulZero(n - 1, b);
    }
  }

  lemma {:induction false} MulOneBits(n: nat, b: bv8)
    requires 1 <= n <= 8
    ensures MulBits(n, 1, b) == b
  {
    if n > 1 {
      MulOneBits(n - 1, b);
    } else {
      assert MulBits(0, 1, b) == 0;
    }
  }

  /** Multiplying by 2^i is i doublings. */
  lemma {:induction false} MulPow2(i: nat, b: bv8)
    ensures Mul(Pow2(i), b) == XtimeN(i, b)
  {
    if i == 0 {
      MulOneBits(8, b);
    } else {
      MulXtime(Pow2(i - 1), b);
      MulPow2(i - 1, b);
    }
  }

  lemma {:induction false} XtimeNSplit(i: nat, j: nat, b: bv8)
    ensures XtimeN(i, XtimeN(j, b)) == XtimeN(i + j, b)
  {
    if i > 0 {
      XtimeNSplit(i - 1, j, b);
    }
  }

  /** Exponents add. */
  lemma Pow2Adds(i: nat, j: nat)
    ensures Mul(Pow2(i), Pow2(j)) == Pow2(i + j)
  {
    MulPow2(i, Pow2(j));
    XtimeNSplit(i, j, 1);
  }

  lemma {:induction false} XtimeNInjective(n: nat, a: bv8, b: bv8)
    requires XtimeN(n, a) == XtimeN(n, b)
    ensures a == b
  {
    if n > 0 {
      XtimeInjective(XtimeN(n - 1, a), XtimeN(n - 1, b));
      XtimeNInjective(n - 1, a, b);
    }
  }

  // ----- 2 has order 255 ---------------------------------------------------------------------------

  lemma PowersTo17()
    ensures Pow2(15) == 0x26 && Pow2(17) == 0x98
  {
    assert Pow2(5) == 0x20;
    assert Pow2(10) == 0x74;
  }

  lemma Product(a: bv8, b: bv8, i: nat, j: nat)
    requires Pow2(i) == a && Pow2(j) == b
    ensures Pow2(i + j) == Mul(a, b)
  {
    Pow2Adds(i, j);
  }

  lemma LandmarkPowers()
    ensures Pow2(15) == 0x26 && Pow2(51) == 0x0a && Pow2(85) == 0xd6 && Pow2(255) == 1
  {
    PowersTo17();
    Product(0x98, 0x98, 17, 17);
    assert Mul(0x98, 0x98) == 0x4e;
    Product(0x4e, 0x98, 34, 17);
    assert Mul(0x4e, 0x98) == 0x0a;
    Product(0x0a, 0x4e, 51, 34);
    assert Mul(0x0a, 0x4e) == 0xd6;
    Product(0xd6, 0xd6, 85, 85);
    assert Mul(0xd6, 0xd6) == 0xd7;
    Product(0xd7, 0xd6, 170, 85);
    assert Mul(0xd7, 0xd6) == 1;
  }

  lemma PowZeroIsOne(d: nat, k: nat)
    requires Pow2(d) == 1
    ensures Pow2(k + d) == Pow2(k)
  {
    XtimeNSplit(k, d, 1);
  }

  lemma {:induction false} PowMultiple(d: nat, k: nat, r: nat)
    requires Pow2(d) == 1
    ensures Pow2(k * d + r) == Pow2(r)
  {
    if k > 0 {
      PowMultiple(d, k - 1, r);
      assert k * d + r == ((k - 1) * d + r) + d;
      PowZeroIsOne(d, (k - 1) * d + r);
    }
  }

  /** Every proper divisor of 255 divides 15, 51 or 85. */
  lemma DivisorsOf255(d: nat)
    requires 1 <= d < 255 && 255 % d == 0
    ensures 15 % d == 0 || 51 % d == 0 || 85 % d == 0
  {
    if d <= 15 {
      assert d == 1 || d == 2 || d == 3 || d == 4 || d == 5 || d == 6 || d == 7 || d == 8 || d == 9 ||
        d == 10 || d == 11 || d == 12 || d == 13 || d == 14 || d == 15;
    } else {
      var k := 255 / d;
      assert d * k == 255;
      if k >= 16 { MulLe(d, 16, k); }
      if k <= 1 { MulLe(d, k, 1); }
      assert k == 2 || k == 3 || k == 4 || k == 5 || k == 6 || k == 7 || k == 8 || k == 9 ||
        k == 10 || k == 11 || k == 12 || k == 13 || k == 14 || k == 15;
    }
  }

  lemma {:induction false} NoShorterPeriod(d: nat)
    requires 1 <= d < 255
    ensures Pow2(d) != 1
  {
    if Pow2(d) == 1 {
      LandmarkPowers();
      if 255 % d == 0 {
        DivisorsOf255(d);
        Period(d, 15);
        Period(d, 51);
        Period(d, 85);
      } else {
        Period(d, 255);
        NoShorterPeriod(255 % d);
      }
    }
  }

  lemma Period(d: nat, n: nat)
    requires d >= 1 && Pow2(d) == 1
    ensures Pow2(n) == Pow2(n % d)
  {
    var q := n / d;
    assert n == q * d + n % d;
    PowMultiple(d, q, n % d);
  }

  lemma Pow2Injective(i: nat, j: nat)
    requires i < j < i + 255
    ensures Pow2(i) != Pow2(j)
  {
    if Pow2(i) == Pow2(j) {
      XtimeNSplit(i, j - i, 1);
      assert XtimeN(i, 1) == XtimeN(i, Pow2(j - i));
      XtimeNInjective(i, 1, Pow2(j - i));
      NoShorterPeriod(j - i);
    }
  }

  lemma Pow2NonZero(i: nat)
    ensures Pow2(i) != 0
  {
    if Pow2(i) == 0 {
      XtimeNZero(i);
      XtimeNInjective(i, 1, 0);
    }
  }

  // ----- every nonzero byte is a power of 2 ------------------------------------------------------------

  function PowerSet(n: nat): set<int> {
    set i | 0 <= i < n :: Pow2(i) as int
  }

  function Range(n: nat): (r: set<int>)
    ensures forall v :: v in r <==> 1 <= v <= n
  {
    if n == 0 then {} else Range(n - 1) + {n}
  }

  lemma {:induction false} PowerSetSize(n: nat)
    requires n <= 255
    ensures |PowerSet(n)| == n
  {
    hide Pow2;
    if n > 0 {
      PowerSetSize(n - 1);
      assert PowerSet(n) == PowerSet(n - 1) + {Pow2(n - 1) as int};
      forall i | 0 <= i < n - 1 ensures Pow2(i) as int != Pow2(n - 1) as int {
        Pow2Injective(i, n - 1);
      }
    }
  }

  lemma {:induction false} RangeSize(n: nat)
    ensures |Range(n)| == n
  {
    if n > 0 {
      RangeSize(n - 1);
    }
  }

  lemma SameSize(a: set<int>, b: set<int>)
    requires a <= b && |a| == |b|
    ensures a == b
  {
    assert b == a + (b - a);
    assert |b - a| == 0;
    forall x | x in b ensures x in a {
      assert x !in b - a;
    }
  }

  lemma SameByte(a: bv8, b: bv8)
    requires a as int == b as int
    ensures a == b
  {
    assert a == (a as int) as bv8;
    assert b == (b as int) as bv8;
  }

  lemma EveryByteIsAPower(b: bv8) returns (i: nat)
    requires b != 0
    ensures i < 255 && Pow2(i) == b
  {
    PowerSetSize(255);
    RangeSize(255);
    forall v | v in PowerSet(255) ensures v in Range(255) {
      var j: nat :| 0 <= j < 255 && v == Pow2(j) as int;
      Pow2NonZero(j);
    }
    SameSize(PowerSet(255), Range(255));
    assert b as int in Range(255);
    i :| 0 <= i < 255 && b as int == Pow2(i) as int;
    SameByte(b, Pow2(i));
  }
}
