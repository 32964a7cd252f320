/** When the Q code determines the data: the exact bytes, coefficient by coefficient. */
module Raid6Range {
  import opened Gf256
  import opened Raid6
  import opened Words

  /** The range condition on the byte itself: nonzero, and not one of the last i powers of 2. */
  predicate ByteInRange(i: nat, b: bv8) {
    b != 0 && !(i >= 1 && b == 142) && !(i >= 2 && b == 71) && !(i >= 3 && b == 173) && !(i >= 4 && b == 216)
  }

  lemma PowerBelow(n: nat, x: bv8)
    requires n >= 1 && Pow2(n) == Xtime(x)
    ensures Pow2(n - 1) == x
  {
    XtimeInjective(Pow2(n - 1), x);
  }

  lemma LastPowers(n: nat)
    requires n == 255
    ensures Pow2(n - 1) == 142 && Pow2(n - 2) == 71 && Pow2(n - 3) == 173 && Pow2(n - 4) == 216
  {
    LandmarkPowers();
    PowerBelow(n, 142);
    PowerBelow(n - 1, 71);
    PowerBelow(n - 2, 173);
    PowerBelow(n - 3, 216);
  }

  /** The condition on logarithms is a condition on bytes. */
  lemma RangeInBytes(log: seq<nat>, ilog: seq<bv8>, i: nat, b: bv8)
    requires Built(log, ilog) && i < 5
    ensures InRange(log, i, b) <==> ByteInRange(i, b)
  {
    hide Pow2;
    var n := 255;
    LastPowers(n);
    assert log[Pow2(n - 1) as int] == n - 1 && log[Pow2(n - 2) as int] == n - 2;
    assert log[Pow2(n - 3) as int] == n - 3 && log[Pow2(n - 4) as int] == n - 4;
    if b != 0 {
      LogInverts(log, ilog, b);
    }
  }

  /** What a lookup inside the table yields. */
  function Term(i: nat, b: bv8): bv8 {
    if b == 0 then Pow2(i) else if ByteInRange(i, b) then XtimeN(i, b) else 0
  }

  lemma LookupIsTerm(log: seq<nat>, ilog: seq<bv8>, i: nat, b: bv8)
    requires Built(log, ilog) && i < 5 && Slot(log, ilog, i, b) < 256
    ensures ilog[Slot(log, ilog, i, b)] == Term(i, b)
  {
    hide Pow2, XtimeN, Mul, ByteInRange;
    assert log[ilog[i] as int] == i;
    RangeInBytes(log, ilog, i, b);
    if InRange(log, i, b) {
      LookupIsProduct(log, ilog, i, b);
      MulPow2(i, b);
    } else if b == 0 {
      assert !ByteInRange(i, b);
    } else {
      LogInverts(log, ilog, b);
      assert Slot(log, ilog, i, b) == 255;
    }
  }

  function Terms(x: seq<bv8>): (t: seq<bv8>)
    ensures |t| == |x| && forall c :: 0 <= c < |x| ==> t[c] == Term(c, x[c])
  {
    seq(|x|, c requires 0 <= c < |x| => Term(c, x[c]))
  }

  lemma QLaneTerms(log: seq<nat>, ilog: seq<bv8>, w: Data, l: nat)
    requires Built(log, ilog) && LookupsInside(log, ilog, w) && l < 8
    ensures QWord(log, ilog, w)[l] == XorFold(Terms(Lane(w, l)), 5)
  {
    hide Built, Term;
    var t := seq(5, c requires 0 <= c < 5 => ilog[Slot(log, ilog, c, w[c][l])]);
    forall c | 0 <= c < 5 ensures t[c] == Terms(Lane(w, l))[c] {
      LookupIsTerm(log, ilog, c, w[c][l]);
    }
    assert t == Terms(Lane(w, l));
    FoldAll(t, 5);
  }

  // ----- the statement --------------------------------------------------------------------------------

  /** All bytes are in range, except that those of word i may be b. */
  ghost predicate InRangeBut(log: seq<nat>, w: Data, i: nat, b: bv8) {
    |log| == 256 && forall c, lane :: 0 <= c < 5 && 0 <= lane < 8 ==>
      InRange(log, c, w[c][lane]) || (c == i && w[c][lane] == b)
  }

  ghost predicate SameCodes(log: seq<nat>, ilog: seq<bv8>, w: Data, v: Data) {
    LookupsInside(log, ilog, w) && LookupsInside(log, ilog, v) &&
    PWord(w) == PWord(v) && QWord(log, ilog, w) == QWord(log, ilog, v)
  }

  ghost predicate AgreeBut(w: Data, v: Data, a: nat, c: nat) {
    forall e :: 0 <= e < 5 && e != a && e != c ==> w[e] == v[e]
  }

  /** w, which may hold b in word i, and the in-range v differ at most in words a and c and have the same codes. */
  ghost predicate Confusable(log: seq<nat>, ilog: seq<bv8>, i: nat, b: bv8, w: Data, v: Data, a: nat, c: nat) {
    && a < c < 5 && InRangeBut(log, w, i, b) && AllInRange(log, v)
    && AgreeBut(w, v, a, c) && SameCodes(log, ilog, w, v)
  }

  /** Stripes that may hold b in word i are still told apart from the in-range ones by their codes,
      whichever two words are lost. */
  ghost predicate Determined(log: seq<nat>, ilog: seq<bv8>, i: nat, b: bv8) {
    forall w: Data, v: Data, a: nat, c: nat :: Confusable(log, ilog, i, b, w, v, a, c) ==> w == v
  }

  lemma ExceptionInside(log: seq<nat>, ilog: seq<bv8>, w: Data, i: nat, b: bv8)
    requires Built(log, ilog) && i < 5 && Slot(log, ilog, i, b) < 256 && InRangeBut(log, w, i, b)
    ensures LookupsInside(log, ilog, w)
  {
    forall c, lane | 0 <= c < 5 && 0 <= lane < 8 ensures Slot(log, ilog, c, w[c][lane]) < 256 {
      assert InRange(log, c, w[c][lane]) || (c == i && w[c][lane] == b);
      assert log[ilog[c] as int] == c;
    }
  }

  // ----- collisions --------------------------------------------------------------------------------------

  /** Ones, except for the bytes x of word i and y of word j. */
  function PairLane(i: nat, x: bv8, j: nat, y: bv8): (s: seq<bv8>)
    requires i < 5 && j < 5 && i != j
    ensures |s| == 5 && forall c :: 0 <= c < 5 ==> s[c] == if c == i then x else if c == j then y else 1
  {
    seq(5, c => if c == i then x else if c == j then y else 1)
  }

  function PairStripe(i: nat, x: bv8, j: nat, y: bv8): (w: Data)
    requires i < 5 && j < 5 && i != j
    ensures forall c, l :: 0 <= c < 5 && 0 <= l < 8 ==> w[c][l] == PairLane(i, x, j, y)[c]
  {
    seq(5, c requires 0 <= c < 5 => seq(8, _ => PairLane(i, x, j, y)[c]))
  }

  function Sum(a: bv8, b: bv8): bv8 {
    a ^ b
  }

  lemma SumMoves(a: bv8, b: bv8, c: bv8, d: bv8)
    requires Sum(a, b) == Sum(c, d)
    ensures a ^ c == b ^ d
  {
  }

  lemma SameFoldInOrder(x: seq<bv8>, y: seq<bv8>, i: nat, j: nat)
    requires |x| == |y| == 5 && i < j < 5 && forall c :: 0 <= c < 5 && c != i && c != j ==> x[c] == y[c]
    requires Difference(x, y)[i] == Difference(x, y)[j]
    ensures XorFold(x, 5) == XorFold(y, 5)
  {
    var d := Difference(x, y);
    forall c | 0 <= c < 5 && c != i && c != j ensures d[c] == 0 {
      XorEqual(x[c], y[c]);
    }
    FoldDifference(x, y, 5);
    SparseFold(d, i, j, 5);
    XorEqual(d[i], d[j]);
    XorEqual(XorFold(x, 5), XorFold(y, 5));
  }

  /** Lanes that differ in two places, by the same amount, have the same sum. */
  lemma SameFold(x: seq<bv8>, y: seq<bv8>, i: nat, j: nat)
    requires |x| == |y| == 5 && i < 5 && j < 5 && i != j && forall c :: 0 <= c < 5 && c != i && c != j ==> x[c] == y[c]
    requires Sum(x[i], x[j]) == Sum(y[i], y[j])
    ensures XorFold(x, 5) == XorFold(y, 5)
  {
    hide Sum, XorFold;
    SumMoves(x[i], x[j], y[i], y[j]);
    if i < j {
      SameFoldInOrder(x, y, i, j);
    } else {
      SameFoldInOrder(x, y, j, i);
    }
  }

  lemma PairSameCodes(log: seq<nat>, ilog: seq<bv8>, w: Data, v: Data, s: seq<bv8>, t: seq<bv8>)
    requires Built(log, ilog) && LookupsInside(log, ilog, w) && LookupsInside(log, ilog, v)
    requires |s| == |t| == 5 && XorFold(s, 5) == XorFold(t, 5) && XorFold(Terms(s), 5) == XorFold(Terms(t), 5)
    requires forall l :: 0 <= l < 8 ==> Lane(w, l) == s && Lane(v, l) == t
    ensures SameCodes(log, ilog, w, v)
  {
    hide Built, LookupsInside, PWord, QWord, Terms;
    forall l | 0 <= l < 8 ensures PWord(w)[l] == PWord(v)[l] && QWord(log, ilog, w)[l] == QWord(log, ilog, v)[l] {
      PLane(w, l);
      PLane(v, l);
      QLaneTerms(log, ilog, w, l);
      QLaneTerms(log, ilog, v, l);
    }
  }

  /** A byte b of word i and a byte x of word j that act like the in-range bytes y and z break uniqueness. */
  lemma PairCollides(log: seq<nat>, ilog: seq<bv8>, i: nat, b: bv8, j: nat, x: bv8, y: bv8, z: bv8)
    requires Built(log, ilog) && i < 5 && j < 5 && i != j && Slot(log, ilog, i, b) < 256
    requires ByteInRange(j, x) && ByteInRange(i, y) && ByteInRange(j, z) && b != y
    requires Sum(b, x) == Sum(y, z) && Sum(Term(i, b), Term(j, x)) == Sum(Term(i, y), Term(j, z))
    ensures !Determined(log, ilog, i, b)
  {
    hide Built, ByteInRange, Sum, Term, LookupsInside, AgreeBut, InRangeBut, AllInRange, SameCodes;
    var w, v := PairStripe(i, b, j, x), PairStripe(i, y, j, z);
    PairInRange(log, ilog, i, b, j, x, y, z);
    ExceptionInside(log, ilog, w, i, b);
    RangeIsInside(log, ilog, v);
    PairFolds(log, ilog, w, v, i, b, j, x, y, z);
    PairAgrees(i, b, j, x, y, z);
    assert Confusable(log, ilog, i, b, w, v, if i < j then i else j, if i < j then j else i);
  }

  lemma PairLanes(i: nat, b: bv8, j: nat, x: bv8)
    requires i < 5 && j < 5 && i != j
    ensures forall l :: 0 <= l < 8 ==> Lane(PairStripe(i, b, j, x), l) == PairLane(i, b, j, x)
  {
  }

  lemma PairFolds(log: seq<nat>, ilog: seq<bv8>, w: Data, v: Data, i: nat, b: bv8, j: nat, x: bv8, y: bv8, z: bv8)
    requires Built(log, ilog) && i < 5 && j < 5 && i != j
    requires w == PairStripe(i, b, j, x) && v == PairStripe(i, y, j, z)
    requires LookupsInside(log, ilog, w) && LookupsInside(log, ilog, v)
    requires Sum(b, x) == Sum(y, z) && Sum(Term(i, b), Term(j, x)) == Sum(Term(i, y), Term(j, z))
    ensures SameCodes(log, ilog, w, v)
  {
    hide Built, Sum, Term, XorFold, LookupsInside, SameCodes, PairStripe, Lane;
    var s, t := PairLane(i, b, j, x), PairLane(i, y, j, z);
    PairLanes(i, b, j, x);
    PairLanes(i, y, j, z);
    SameFold(s, t, i, j);
    SameFold(Terms(s), Terms(t), i, j);
    PairSameCodes(log, ilog, w, v, s, t);
  }

  lemma PairAgrees(i: nat, b: bv8, j: nat, x: bv8, y: bv8, z: bv8)
    requires i < 5 && j < 5 && i != j && b != y
    ensures AgreeBut(PairStripe(i, b, j, x), PairStripe(i, y, j, z), if i < j then i else j, if i < j then j else i)
    ensures PairStripe(i, b, j, x) != PairStripe(i, y, j, z)
  {
    var w, v := PairStripe(i, b, j, x), PairStripe(i, y, j, z);
    assert w[i][0] != v[i][0];
    forall e | 0 <= e < 5 && e != i && e != j ensures w[e] == v[e] {
    }
  }

  lemma PairInRange(log: seq<nat>, ilog: seq<bv8>, i: nat, b: bv8, j: nat, x: bv8, y: bv8, z: bv8)
    requires Built(log, ilog) && i < 5 && j < 5 && i != j
    requires ByteInRange(j, x) && ByteInRange(i, y) && ByteInRange(j, z)
    ensures InRangeBut(log, PairStripe(i, b, j, x), i, b) && AllInRange(log, PairStripe(i, y, j, z))
  {
    RangeInBytes(log, ilog, j, x);
    RangeInBytes(log, ilog, i, y);
    RangeInBytes(log, ilog, j, z);
    forall c | 0 <= c < 5 ensures InRange(log, c, 1) {
      RangeInBytes(log, ilog, c, 1);
    }
  }

  /** Each of the nine bytes whose lookup is inside the table but out of range has such a partner. */
  lemma OutOfRangeCollides(log: seq<nat>, ilog: seq<bv8>, i: nat, b: bv8)
    requires Built(log, ilog) && i < 5 && Slot(log, ilog, i, b) < 256 && !ByteInRange(i, b)
    ensures !Determined(log, ilog, i, b)
  {
    OutOfRangeBytes(log, ilog, i, b);
    if b == 0 {
      ZeroCollides(log, ilog, i, b);
    } else {
      LastCollides(log, ilog, i, b);
    }
  }

  lemma OutOfRangeBytes(log: seq<nat>, ilog: seq<bv8>, i: nat, b: bv8)
    requires Built(log, ilog) && i < 5 && Slot(log, ilog, i, b) < 256 && !ByteInRange(i, b)
    ensures b == 0 || (i == 1 && b == 142) || (i == 2 && b == 71) || (i == 3 && b == 173) || (i == 4 && b == 216)
  {
    hide Pow2;
    var n := 255;
    LastPowers(n);
    assert log[ilog[i] as int] == i;
    assert log[Pow2(n - 1) as int] == n - 1 && log[Pow2(n - 2) as int] == n - 2;
    assert log[Pow2(n - 3) as int] == n - 3 && log[Pow2(n - 4) as int] == n - 4;
  }

  lemma ZeroCollides(log: seq<nat>, ilog: seq<bv8>, i: nat, b: bv8)
    requires Built(log, ilog) && i < 5 && Slot(log, ilog, i, b) < 256 && b == 0
    ensures !Determined(log, ilog, i, b)
  {
    hide Determined, Built;
    if i == 0 {
      PairCollides(log, ilog, 0, 0, 1, 1, 244, 245);
    } else if i == 1 {
      PairCollides(log, ilog, 1, 0, 0, 1, 245, 244);
    } else if i == 2 {
      PairCollides(log, ilog, 2, 0, 0, 1, 166, 167);
    } else if i == 3 {
      PairCollides(log, ilog, 3, 0, 0, 1, 156, 157);
    } else {
      PairCollides(log, ilog, 4, 0, 0, 1, 115, 114);
    }
  }

  lemma LastCollides(log: seq<nat>, ilog: seq<bv8>, i: nat, b: bv8)
    requires Built(log, ilog) && i < 5 && Slot(log, ilog, i, b) < 256
    requires (i == 1 && b == 142) || (i == 2 && b == 71) || (i == 3 && b == 173) || (i == 4 && b == 216)
    ensures !Determined(log, ilog, i, b)
  {
    hide Determined, Built;
    if i == 1 {
      PairCollides(log, ilog, 1, 142, 0, 1, 122, 245);
    } else if i == 2 {
      PairCollides(log, ilog, 2, 71, 0, 1, 224, 166);
    } else if i == 3 {
      PairCollides(log, ilog, 3, 173, 0, 1, 48, 156);
    } else {
      PairCollides(log, ilog, 4, 216, 0, 1, 170, 115);
    }
  }

  /** Any two data words are determined, also for stripes that may hold b in word i,
      if and only if b is in range there. */
  lemma RangeIsExact(log: seq<nat>, ilog: seq<bv8>, i: nat, b: bv8)
    requires Built(log, ilog) && i < 5 && Slot(log, ilog, i, b) < 256
    ensures InRange(log, i, b) <==> Determined(log, ilog, i, b)
  {
    hide Built, QWord, PWord;
    RangeInBytes(log, ilog, i, b);
    if ByteInRange(i, b) {
      forall w: Data, v: Data, a: nat, c: nat | Confusable(log, ilog, i, b, w, v, a, c) ensures w == v
      {
        assert AllInRange(log, w);
        AnyTwoDetermined(log, ilog, w, v, a, c);
      }
    } else {
      OutOfRangeCollides(log, ilog, i, b);
    }
  }
}
