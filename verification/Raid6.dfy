/** The RAID-6 encoder: log tables, the Q code, and rotating P and Q over seven devices. */
module Raid6 {
  import opened Devices
  import opened Gf256
  import opened Words

  const STRIPES: nat := 13

  // ----- tables ------------------------------------------------------------------------------

  /** The tables after the build loop: entries it never writes keep their static zero.
      The second sequence may go on past the table, with whatever the memory there holds. */
  ghost predicate Built(log: seq<nat>, ilog: seq<bv8>) {
    && |log| == 256 <= |ilog|
    && (forall i :: 0 <= i < 255 ==> ilog[i] == Pow2(i) && log[Pow2(i) as int] == i)
    && ilog[255] == 0 && log[0] == 0
  }

  ghost predicate BuiltTo(log: seq<nat>, ilog: seq<bv8>, n: nat) {
    && |log| == 256 <= |ilog| && n <= 255
    && (forall i :: 0 <= i < n ==> ilog[i] == Pow2(i) && log[Pow2(i) as int] == i)
    && ilog[255] == 0 && log[0] == 0
  }

  lemma StepKeeps(log: seq<nat>, ilog: seq<bv8>, n: nat, i: nat)
    requires BuiltTo(log, ilog, n) && i < n < 255
    ensures ilog[n := Pow2(n)][i] == Pow2(i) && log[Pow2(n) as int := n][Pow2(i) as int] == i
  {
    hide Pow2;
    DistinctIndex(i, n);
  }

  lemma BuildStep(log: seq<nat>, ilog: seq<bv8>, n: nat)
    requires BuiltTo(log, ilog, n) && n < 255
    ensures BuiltTo(log[Pow2(n) as int := n], ilog[n := Pow2(n)], n + 1)
  {
    hide Pow2;
    NonZeroIndex(n);
    var newLog, newIlog := log[Pow2(n) as int := n], ilog[n := Pow2(n)];
    forall i | 0 <= i < n ensures newIlog[i] == Pow2(i) && newLog[Pow2(i) as int] == i {
      StepKeeps(log, ilog, n, i);
    }
  }

  lemma DistinctIndex(k: nat, n: nat)
    requires k < n < 255
    ensures Pow2(k) as int != Pow2(n) as int
  {
    Pow2Injective(k, n);
    if Pow2(k) as int == Pow2(n) as int {
      SameByte(Pow2(k), Pow2(n));
    }
  }

  method BuildRaid6Table(gflogTbl: array<nat>, gfilogTbl: array<bv8>)
    requires gflogTbl as object != gfilogTbl && gflogTbl.Length == 256 <= gfilogTbl.Length
    requires gflogTbl[0] == 0 && gfilogTbl[255] == 0
    modifies gflogTbl, gfilogTbl
    ensures Built(gflogTbl[..], gfilogTbl[..]) && gfilogTbl[255..] == old(gfilogTbl[255..])
  {
    var b: bv32 := 1;
    for i := 0 to 255
      invariant b < 256 && b as bv8 == Pow2(i)
      invariant BuiltTo(gflogTbl[..], gfilogTbl[..], i) && gfilogTbl[255..] == old(gfilogTbl[255..])
    {
      BuildStep(gflogTbl[..], gfilogTbl[..], i);
      gflogTbl[(b as bv8) as int] := i;
      gfilogTbl[i] := b as bv8;
      DoubleIsXtime(b);
      b := b << 1;
      if b & 256 != 0 {
        b := b ^ 0x11d;
      }
    }
  }

  lemma NonZeroIndex(i: nat)
    ensures Pow2(i) as int != 0
  {
    Pow2NonZero(i);
    if Pow2(i) as int == 0 { SameByte(Pow2(i), 0); }
  }

  lemma DoubleIsXtime(b: bv32)
    requires b < 256
    ensures var c := if (b << 1) & 256 != 0 then (b << 1) ^ 0x11d else b << 1;
      c < 256 && c as bv8 == Xtime(b as bv8)
  {
  }

  /** The log table inverts the antilog table on every nonzero byte. */
  lemma LogInverts(log: seq<nat>, ilog: seq<bv8>, b: bv8)
    requires Built(log, ilog) && b != 0
    ensures log[b as int] <= 254 && ilog[log[b as int]] == b == Pow2(log[b as int])
  {
    var i := EveryByteIsAPower(b);
    assert log[Pow2(i) as int] == i;
  }

  // ----- the Q code ----------------------------------------------------------------------------

  /** Position in the antilog table that the term for coefficient 2^i and byte b looks up. */
  function Slot(log: seq<nat>, ilog: seq<bv8>, i: nat, b: bv8): nat
    requires |log| == 256 <= |ilog| && i < 5
  {
    log[ilog[i] as int] + log[b as int]
  }

  /** Where table lookup is field multiplication. */
  predicate InRange(log: seq<nat>, i: nat, b: bv8)
    requires |log| == 256
  {
    b != 0 && log[b as int] + i <= 254
  }

  /** A lookup inside the table is the product 2^i * b exactly when b is nonzero and the logs do not pass 254. */
  lemma LookupIsProduct(log: seq<nat>, ilog: seq<bv8>, i: nat, b: bv8)
    requires Built(log, ilog) && i < 5 && Slot(log, ilog, i, b) < 256
    ensures ilog[Slot(log, ilog, i, b)] == Mul(Pow2(i), b) <==> InRange(log, i, b)
  {
    assert log[Pow2(i) as int] == i;
    MulPow2(i, b);
    if b == 0 {
      XtimeNZero(i);
      Pow2NonZero(i);
    } else {
      LogInverts(log, ilog, b);
      var l := log[b as int];
      Pow2Adds(i, l);
      Pow2NonZero(i + l);
    }
  }

  /** The five data words of a stripe. */
  type Data = w: seq<Word> | |w| == 5 witness [ZERO, ZERO, ZERO, ZERO, ZERO]

  /** Every lookup for these words stays inside the memory that ilog describes. */
  ghost predicate Readable(log: seq<nat>, ilog: seq<bv8>, w: Data) {
    |log| == 256 <= |ilog| &&
    forall i, lane :: 0 <= i < 5 && 0 <= lane < 8 ==> Slot(log, ilog, i, w[i][lane]) < |ilog|
  }

  /** Every lookup for these words stays inside the 256-entry table. */
  ghost predicate LookupsInside(log: seq<nat>, ilog: seq<bv8>, w: Data): (inside: bool)
    ensures inside ==> Readable(log, ilog, w)
  {
    |log| == 256 <= |ilog| &&
    forall i, lane :: 0 <= i < 5 && 0 <= lane < 8 ==> Slot(log, ilog, i, w[i][lane]) < 256
  }

  /** Every lookup for any words stays inside the memory that ilog describes. */
  ghost predicate TablesReadable(log: seq<nat>, ilog: seq<bv8>) {
    |log| == 256 <= |ilog| && forall i, b: bv8 :: 0 <= i < 5 ==> Slot(log, ilog, i, b) < |ilog|
  }

  lemma WordsReadable(log: seq<nat>, ilog: seq<bv8>, w: Data)
    requires TablesReadable(log, ilog)
    ensures Readable(log, ilog, w)
  {
  }

  /** The lookups of built tables reach no further than three entries past the table. */
  lemma BuiltReadable(log: seq<nat>, ilog: seq<bv8>)
    requires Built(log, ilog)
    ensures TablesReadable(log, ilog) <==> |ilog| >= 259
  {
    hide Pow2;
    forall i, b: bv8 | 0 <= i < 5 ensures Slot(log, ilog, i, b) <= 254 + i {
      assert log[Pow2(i) as int] == i;
      if b != 0 { LogInverts(log, ilog, b); }
    }
    assert log[Pow2(4) as int] == 4 && log[Pow2(254) as int] == 254;
    assert Slot(log, ilog, 4, Pow2(254)) == 258;
  }

  ghost predicate AllInRange(log: seq<nat>, w: Data) {
    |log| == 256 && forall i, lane :: 0 <= i < 5 && 0 <= lane < 8 ==> InRange(log, i, w[i][lane])
  }

  function QByte(log: seq<nat>, ilog: seq<bv8>, a: bv8, b: bv8, c: bv8, d: bv8, e: bv8): bv8
    requires |log| == 256 <= |ilog|
    requires Slot(log, ilog, 0, a) < |ilog| && Slot(log, ilog, 1, b) < |ilog| && Slot(log, ilog, 2, c) < |ilog|
    requires Slot(log, ilog, 3, d) < |ilog| && Slot(log, ilog, 4, e) < |ilog|
  {
    ilog[Slot(log, ilog, 0, a)] ^ ilog[Slot(log, ilog, 1, b)] ^ ilog[Slot(log, ilog, 2, c)] ^
    ilog[Slot(log, ilog, 3, d)] ^ ilog[Slot(log, ilog, 4, e)]
  }

  /** The word qLBA computes. */
  function QWord(log: seq<nat>, ilog: seq<bv8>, w: Data): Word
    requires Readable(log, ilog, w)
  {
    seq(8, l requires 0 <= l < 8 && Readable(log, ilog, w) =>
      QByte(log, ilog, w[0][l], w[1][l], w[2][l], w[3][l], w[4][l]))
  }

  method QLbaByte(gflogTbl: array<nat>, gfilogTbl: array<bv8>, a: bv8, b: bv8, c: bv8, d: bv8, e: bv8) returns (q: bv8)
    requires gflogTbl.Length == 256 <= gfilogTbl.Length
    requires var log, ilog := gflogTbl[..], gfilogTbl[..];
      Slot(log, ilog, 0, a) < |ilog| && Slot(log, ilog, 1, b) < |ilog| && Slot(log, ilog, 2, c) < |ilog| &&
      Slot(log, ilog, 3, d) < |ilog| && Slot(log, ilog, 4, e) < |ilog|
    ensures q == QByte(gflogTbl[..], gfilogTbl[..], a, b, c, d, e)
  {
    var t0 := Lookup(gflogTbl, gfilogTbl, 0, a);
    var t1 := Lookup(gflogTbl, gfilogTbl, 1, b);
    var t2 := Lookup(gflogTbl, gfilogTbl, 2, c);
    var t3 := Lookup(gflogTbl, gfilogTbl, 3, d);
    var t4 := Lookup(gflogTbl, gfilogTbl, 4, e);
    q := t0 ^ t1 ^ t2 ^ t3 ^ t4;
  }

  method Lookup(gflogTbl: array<nat>, gfilogTbl: array<bv8>, i: nat, b: bv8) returns (t: bv8)
    requires gflogTbl.Length == 256 <= gfilogTbl.Length && i < 5
    requires Slot(gflogTbl[..], gfilogTbl[..], i, b) < gfilogTbl.Length
    ensures t == gfilogTbl[Slot(gflogTbl[..], gfilogTbl[..], i, b)]
  {
    t := gfilogTbl[gflogTbl[gfilogTbl[i] as int] + gflogTbl[b as int]];
  }

  method QLba(gflogTbl: array<nat>, gfilogTbl: array<bv8>, w: Data) returns (q: Word)
    requires Readable(gflogTbl[..], gfilogTbl[..], w)
    ensures q == QWord(gflogTbl[..], gfilogTbl[..], w)
  {
    ghost var log, ilog := gflogTbl[..], gfilogTbl[..];
    q := ZERO;
    for i := 0 to 8
      invariant forall l :: 0 <= l < i ==> q[l] == QWord(log, ilog, w)[l]
    {
      assert forall c :: 0 <= c < 5 ==> Slot(log, ilog, c, w[c][i]) < |ilog|;
      var t := QLbaByte(gflogTbl, gfilogTbl, w[0][i], w[1][i], w[2][i], w[3][i], w[4][i]);
      q := q[i := t];
    }
  }

  /** Nothing in the driver calls the build function: with the tables' static zeros every Q word is zero. */
  lemma ZeroTables(log: seq<nat>, ilog: seq<bv8>, w: Data)
    requires |log| == 256 <= |ilog| && forall i :: 0 <= i < 256 ==> log[i] == 0 && ilog[i] == 0
    ensures TablesReadable(log, ilog) && QWord(log, ilog, w) == ZERO
  {
  }

  lemma RangeIsInside(log: seq<nat>, ilog: seq<bv8>, w: Data)
    requires Built(log, ilog) && AllInRange(log, w)
    ensures LookupsInside(log, ilog, w)
  {
    forall i, lane | 0 <= i < 5 && 0 <= lane < 8 ensures Slot(log, ilog, i, w[i][lane]) < 256 {
      assert InRange(log, i, w[i][lane]);
      assert log[Pow2(i) as int] == i;
    }
  }

  /** Within range, every lane of Q is the field sum of 2^i times byte i. */
  lemma QIsFieldSum(log: seq<nat>, ilog: seq<bv8>, w: Data, l: nat)
    requires Built(log, ilog) && AllInRange(log, w) && l < 8
    ensures LookupsInside(log, ilog, w)
    ensures QWord(log, ilog, w)[l] ==
            Mul(0x01, w[0][l]) ^ Mul(0x02, w[1][l]) ^ Mul(0x04, w[2][l]) ^ Mul(0x08, w[3][l]) ^ Mul(0x10, w[4][l])
  {
    RangeIsInside(log, ilog, w);
    forall i | 0 <= i < 5 ensures ilog[Slot(log, ilog, i, w[i][l])] == Mul(Pow2(i), w[i][l]) {
      assert InRange(log, i, w[i][l]);
      LookupIsProduct(log, ilog, i, w[i][l]);
    }
    SmallPowers();
  }

  lemma SmallPowers()
    ensures Pow2(0) == 0x01 && Pow2(1) == 0x02 && Pow2(2) == 0x04 && Pow2(3) == 0x08 && Pow2(4) == 0x10
  {
  }

  // ----- any two data words are determined by the rest ---------------------------------------------

  /** Two coefficients of one byte difference tell the coefficients apart. */
  lemma CoefficientsDiffer(i: nat, j: nat, d: bv8)
    requires i < j < 5 && XtimeN(i, d) == XtimeN(j, d)
    ensures d == 0
  {
    if d != 0 {
      var l := EveryByteIsAPower(d);
      XtimeNSplit(i, l, 1);
      XtimeNSplit(j, l, 1);
      Pow2Injective(i + l, j + l);
    }
  }

  /** The sum of the first n bytes. */
  function XorFold(t: seq<bv8>, n: nat): bv8
    requires n <= |t|
  {
    if n == 0 then 0 else if n == 1 then t[0] else XorFold(t, n - 1) ^ t[n - 1]
  }

  lemma FoldStep(t: seq<bv8>, n: nat)
    requires 0 < n < |t|
    ensures XorFold(t, n + 1) == XorFold(t, n) ^ t[n]
  {
  }

  lemma FoldAll(t: seq<bv8>, n: nat)
    requires |t| == n == 5
    ensures XorFold(t, n) == t[0] ^ t[1] ^ t[2] ^ t[3] ^ t[4]
  {
    FoldStep(t, n - 4);
    FoldStep(t, n - 3);
    FoldStep(t, n - 2);
    FoldStep(t, n - 1);
  }

  /** One lane with the weights of Q: byte c times 2^c. */
  function Weighted(x: seq<bv8>): (t: seq<bv8>)
    ensures |t| == |x| && forall c :: 0 <= c < |x| ==> t[c] == XtimeN(c, x[c])
  {
    seq(|x|, c requires 0 <= c < |x| => XtimeN(c, x[c]))
  }

  function Difference(x: seq<bv8>, y: seq<bv8>): (d: seq<bv8>)
    requires |x| == |y|
    ensures |d| == |x| && forall c :: 0 <= c < |x| ==> d[c] == Plus(x[c], y[c])
  {
    seq(|x|, c requires 0 <= c < |x| => Plus(x[c], y[c]))
  }

  lemma {:induction false} FoldDifference(x: seq<bv8>, y: seq<bv8>, n: nat)
    requires n <= |x| == |y|
    ensures XorFold(Difference(x, y), n) == XorFold(x, n) ^ XorFold(y, n)
  {
    if n > 0 {
      FoldDifference(x, y, n - 1);
      XorPairs(XorFold(x, n - 1), XorFold(y, n - 1), x[n - 1], y[n - 1]);
    }
  }

  /** Weighting is linear. */
  lemma WeightedDifference(x: seq<bv8>, y: seq<bv8>)
    requires |x| == |y|
    ensures Weighted(Difference(x, y)) == Difference(Weighted(x), Weighted(y))
  {
    hide XtimeN, Weighted, Difference, Plus;
    forall c | 0 <= c < |x| ensures Weighted(Difference(x, y))[c] == Difference(Weighted(x), Weighted(y))[c] {
      XtimeNPlus(c, x[c], y[c]);
    }
  }

  lemma {:induction false} SparseFold(t: seq<bv8>, a: nat, b: nat, n: nat)
    requires n <= |t| && a < b < |t| && forall c :: 0 <= c < |t| && c != a && c != b ==> t[c] == 0
    ensures XorFold(t, n) == (if a < n then t[a] else 0) ^ (if b < n then t[b] else 0)
  {
    if n > 0 {
      SparseFold(t, a, b, n - 1);
    }
  }

  lemma XorEqual(a: bv8, b: bv8)
    ensures a ^ b == 0 <==> a == b
  {
  }

  lemma WeightsCancel(x: seq<bv8>, y: seq<bv8>, a: nat, b: nat)
    requires |x| == |y| == 5 && a < b < 5
    requires forall c :: 0 <= c < 5 && c != a && c != b ==> Difference(x, y)[c] == 0
    requires XorFold(Weighted(x), 5) == XorFold(Weighted(y), 5)
    ensures XtimeN(a, Difference(x, y)[a]) == XtimeN(b, Difference(x, y)[b])
  {
    var t := Weighted(Difference(x, y));
    WeightedDifference(x, y);
    FoldDifference(Weighted(x), Weighted(y), 5);
    XorEqual(XorFold(Weighted(x), 5), XorFold(Weighted(y), 5));
    forall c | 0 <= c < 5 && c != a && c != b ensures t[c] == 0 {
      XtimeNZero(c);
    }
    SparseFold(t, a, b, 5);
    XorEqual(t[a], t[b]);
  }

  lemma LaneDetermined(x: seq<bv8>, y: seq<bv8>, a: nat, b: nat)
    requires |x| == |y| == 5 && a < b < 5
    requires forall c :: 0 <= c < 5 && c != a && c != b ==> x[c] == y[c]
    requires XorFold(x, 5) == XorFold(y, 5) && XorFold(Weighted(x), 5) == XorFold(Weighted(y), 5)
    ensures x == y
  {
    var d := Difference(x, y);
    forall c | 0 <= c < 5 && c != a && c != b ensures d[c] == 0 {
      XorEqual(x[c], y[c]);
    }
    FoldDifference(x, y, 5);
    SparseFold(d, a, b, 5);
    XorEqual(XorFold(x, 5), XorFold(y, 5));
    XorEqual(d[a], d[b]);
    WeightsCancel(x, y, a, b);
    CoefficientsDiffer(a, b, d[a]);
    XorEqual(x[a], y[a]);
    XorEqual(x[b], y[b]);
  }

  function PWord(w: Data): Word {
    Xor(Xor(Xor(Xor(w[0], w[1]), w[2]), w[3]), w[4])
  }

  function Lane(w: Data, l: nat): seq<bv8>
    requires l < 8
  {
    [w[0][l], w[1][l], w[2][l], w[3][l], w[4][l]]
  }

  lemma PLane(w: Data, l: nat)
    requires l < 8
    ensures PWord(w)[l] == XorFold(Lane(w, l), 5)
  {
    FoldAll(Lane(w, l), 5);
  }

  lemma QLane(log: seq<nat>, ilog: seq<bv8>, w: Data, l: nat)
    requires Built(log, ilog) && AllInRange(log, w) && l < 8
    ensures LookupsInside(log, ilog, w) && QWord(log, ilog, w)[l] == XorFold(Weighted(Lane(w, l)), 5)
  {
    RangeIsInside(log, ilog, w);
    var t := seq(5, c requires 0 <= c < 5 => ilog[Slot(log, ilog, c, w[c][l])]);
    forall c | 0 <= c < 5 ensures t[c] == Weighted(Lane(w, l))[c] {
      assert InRange(log, c, w[c][l]);
      LookupIsProduct(log, ilog, c, w[c][l]);
      MulPow2(c, w[c][l]);
    }
    assert t == Weighted(Lane(w, l));
    FoldAll(t, 5);
  }

  /** Two in-range stripes with the same P and Q that agree outside words a and b are equal. */
  lemma AnyTwoDetermined(log: seq<nat>, ilog: seq<bv8>, w: Data, v: Data, a: nat, b: nat)
    requires Built(log, ilog) && AllInRange(log, w) && AllInRange(log, v) && a < b < 5
    requires LookupsInside(log, ilog, w) && LookupsInside(log, ilog, v)
    requires forall c :: 0 <= c < 5 && c != a && c != b ==> w[c] == v[c]
    requires PWord(w) == PWord(v) && QWord(log, ilog, w) == QWord(log, ilog, v)
    ensures w == v
  {
    forall l | 0 <= l < 8 ensures Lane(w, l) == Lane(v, l) {
      LaneFromCodes(log, ilog, w, v, a, b, l);
    }
    forall c | 0 <= c < 5 ensures w[c] == v[c] {
      forall l | 0 <= l < 8 ensures w[c][l] == v[c][l] {
        assert Lane(w, l)[c] == Lane(v, l)[c];
      }
    }
  }

  lemma LaneFromCodes(log: seq<nat>, ilog: seq<bv8>, w: Data, v: Data, a: nat, b: nat, l: nat)
    requires Built(log, ilog) && AllInRange(log, w) && AllInRange(log, v) && a < b < 5 && l < 8
    requires LookupsInside(log, ilog, w) && LookupsInside(log, ilog, v)
    requires forall c :: 0 <= c < 5 && c != a && c != b ==> w[c] == v[c]
    requires PWord(w) == PWord(v) && QWord(log, ilog, w) == QWord(log, ilog, v)
    ensures Lane(w, l) == Lane(v, l)
  {
    PLane(w, l);
    PLane(v, l);
    QLane(log, ilog, w, l);
    QLane(log, ilog, v, l);
    LaneDetermined(Lane(w, l), Lane(v, l), a, b);
  }

  /** Bytes 0 and 1 look up the coefficient itself. */
  lemma UnitSlot(log: seq<nat>, ilog: seq<bv8>, i: nat, b: bv8)
    requires Built(log, ilog) && i < 5 && (b == 0 || b == 1)
    ensures Slot(log, ilog, i, b) == i
  {
    hide Pow2;
    assert log[Pow2(0) as int] == 0 && log[Pow2(i) as int] == i;
    FirstPower();
  }

  lemma FirstPower()
    ensures Pow2(0) == 1
  {
  }

  lemma UnitBytes(log: seq<nat>, ilog: seq<bv8>, w: Data, v: Data)
    requires Built(log, ilog) && |log| == 256 <= |ilog|
    requires forall i, lane :: 0 <= i < 5 && 0 <= lane < 8 ==> w[i][lane] in {0, 1} && v[i][lane] in {0, 1}
    ensures LookupsInside(log, ilog, w) && LookupsInside(log, ilog, v) && QWord(log, ilog, w) == QWord(log, ilog, v)
  {
    hide Built, Slot;
    forall i, lane | 0 <= i < 5 && 0 <= lane < 8
      ensures Slot(log, ilog, i, w[i][lane]) == i == Slot(log, ilog, i, v[i][lane])
    {
      UnitSlot(log, ilog, i, w[i][lane]);
      UnitSlot(log, ilog, i, v[i][lane]);
    }
  }

  /** Outside the range it fails: bytes 0 and 1 share log 0, so swapping two such words keeps P and Q. */
  lemma ZeroBytesCollide(log: seq<nat>, ilog: seq<bv8>)
    requires Built(log, ilog)
    ensures var one: Word := [1, 1, 1, 1, 1, 1, 1, 1];
      var w: Data, v: Data := [ZERO, one, one, one, one], [one, ZERO, one, one, one];
      w != v && PWord(w) == PWord(v) &&
      LookupsInside(log, ilog, w) && LookupsInside(log, ilog, v) && QWord(log, ilog, w) == QWord(log, ilog, v)
  {
    var one: Word := [1, 1, 1, 1, 1, 1, 1, 1];
    var w: Data, v: Data := [ZERO, one, one, one, one], [one, ZERO, one, one, one];
    hide Built, QWord, LookupsInside, Xor;
    assert w[0][0] != v[0][0];
    UnitBytes(log, ilog, w, v);
    XorCommutes(ZERO, one);
  }

  // ----- layout --------------------------------------------------------------------------------------

  /** Devices of the two codes in stripe k: both step down by one, modulo 7. */
  function PAt(k: nat): nat { (5 + 6 * k) % 7 }
  function QAt(k: nat): nat { (6 + 6 * k) % 7 }

  /** The device that holds data word j of stripe k. */
  function DataDevice(k: nat, j: nat): nat {
    if PAt(k) == 6 then j + 1 else if j < PAt(k) then j else j + 2
  }

  lemma ModSeven(r: nat, q: nat)
    requires r < 7
    ensures (r + 7 * q) % 7 == r
  {
  }

  lemma NextTurn(k: nat)
    ensures (k + 1) % 7 == if k % 7 == 6 then 0 else k % 7 + 1
  {
  }

  lemma CodesAt(k: nat)
    ensures PAt(k) == (if k % 7 == 6 then 6 else 5 - k % 7) && QAt(k) == 6 - k % 7
  {
    var q, r := k / 7, k % 7;
    assert 6 + 6 * k == 6 - r + 7 * (r + 6 * q);
    ModSeven(6 - r, r + 6 * q);
    if r == 6 {
      assert 5 + 6 * k == 6 + 7 * (5 + 6 * q);
      ModSeven(6, 5 + 6 * q);
    } else {
      assert 5 + 6 * k == 5 - r + 7 * (r + 6 * q);
      ModSeven(5 - r, r + 6 * q);
    }
  }

  /** Q follows P around the ring, and the five data devices are the remaining ones in order. */
  lemma Rotation(k: nat)
    ensures PAt(k) < 7 && QAt(k) == (PAt(k) + 1) % 7
    ensures PAt(k + 1) == (if PAt(k) == 0 then 6 else PAt(k) - 1)
    ensures QAt(k + 1) == (if QAt(k) == 0 then 6 else QAt(k) - 1)
  {
    hide PAt, QAt;
    CodesAt(k);
    CodesAt(k + 1);
    NextTurn(k);
  }

  lemma FiveSlots(k: nat)
    ensures forall j :: 0 <= j < 5 ==> DataDevice(k, j) < 7 && DataDevice(k, j) != PAt(k) && DataDevice(k, j) != QAt(k)
    ensures forall i, j :: 0 <= i < j < 5 ==> DataDevice(k, i) < DataDevice(k, j)
  {
    Rotation(k);
  }

  /** How many data devices of stripe k come before device d. */
  function DataBefore(k: nat, d: nat): nat {
    if d <= PAt(k) && d <= QAt(k) then d else if d <= PAt(k) || d <= QAt(k) then d - 1 else d - 2
  }

  lemma DataBeforeStep(k: nat, d: nat)
    requires d < 7
    ensures DataBefore(k, d + 1) == DataBefore(k, d) + (if d != PAt(k) && d != QAt(k) then 1 else 0)
    ensures d != PAt(k) && d != QAt(k) ==> DataBefore(k, d) < 5 && DataDevice(k, DataBefore(k, d)) == d
    ensures DataBefore(k, 0) == 0 && DataBefore(k, 7) == 5
  {
    Rotation(k);
  }

  /** Stripe words by device and stripe. */
  type Rows = r: seq<seq<Word>> | |r| == 7 && forall d :: 0 <= d < 7 ==> |r[d]| == STRIPES
    witness seq(7, _ => seq(STRIPES, _ => ZERO))

  type Buffer = b: seq<Word> | |b| == 65 witness seq(65, _ => ZERO)

  function DataOf(buf: Buffer, k: nat): Data
    requires k < STRIPES
  {
    buf[5 * k..5 * k + 5]
  }

  /** What device d holds of a stripe with data w, parity pw and code qw. */
  function StripeWord(w: Data, pw: Word, qw: Word, k: nat, d: nat): Word
    requires d < 7
  {
    DataBeforeStep(k, d);
    if d == PAt(k) then pw else if d == QAt(k) then qw else w[DataBefore(k, d)]
  }

  /** All stripes store their data and P; q lists what the Q slots hold. */
  ghost predicate Encodes(r: Rows, buf: Buffer, q: seq<Word>) {
    |q| == STRIPES && forall k, d {:trigger r[d][k]} :: 0 <= k < STRIPES && 0 <= d < 7 ==>
      r[d][k] == StripeWord(DataOf(buf, k), PWord(DataOf(buf, k)), q[k], k, d)
  }

  ghost predicate DecodesTo(r: Rows, buf: Buffer, n: nat) {
    n <= 65 && forall m :: 0 <= m < n ==> buf[m] == r[DataDevice(m / 5, m % 5)][m / 5]
  }

  lemma DecodedWord(r: Rows, buf: Buffer, q: seq<Word>, out: Buffer, m: nat)
    requires Encodes(r, buf, q) && DecodesTo(r, out, 65) && m < 65
    ensures out[m] == buf[m]
  {
    hide PAt, QAt, DataDevice, DataBefore, PWord;
    var k, j := m / 5, m % 5;
    SlotOfData(k, j);
    assert r[DataDevice(k, j)][k] == DataOf(buf, k)[j];
  }

  /** Decoding an encoded array returns the 65 words, whatever the Q slots hold. */
  lemma DecodeInvertsEncode(r: Rows, buf: Buffer, q: seq<Word>, out: Buffer)
    requires Encodes(r, buf, q) && DecodesTo(r, out, 65)
    ensures out == buf
    ensures forall k :: 0 <= k < STRIPES ==> r[PAt(k)][k] == PWord(DataOf(buf, k)) && r[QAt(k)][k] == q[k]
  {
    hide DataDevice, DataBefore, PWord;
    forall m | 0 <= m < 65 ensures out[m] == buf[m] {
      DecodedWord(r, buf, q, out, m);
    }
    forall k | 0 <= k < STRIPES ensures r[PAt(k)][k] == PWord(DataOf(buf, k)) && r[QAt(k)][k] == q[k] {
      Rotation(k);
    }
  }

  lemma SlotOfData(k: nat, j: nat)
    requires j < 5
    ensures DataDevice(k, j) < 7 && DataDevice(k, j) != PAt(k) && DataDevice(k, j) != QAt(k)
    ensures DataBefore(k, DataDevice(k, j)) == j
  {
    Rotation(k);
  }

  // ----- any five of the seven slots determine a stripe ---------------------------------------------------

  /** What the seven devices store of a stripe with data w. */
  function Slots(log: seq<nat>, ilog: seq<bv8>, w: Data, k: nat): (r: seq<Word>)
    requires Readable(log, ilog, w)
    ensures |r| == 7 && forall d :: 0 <= d < 7 ==> r[d] == StripeWord(w, PWord(w), QWord(log, ilog, w), k, d)
  {
    seq(7, d requires 0 <= d < 7 && Readable(log, ilog, w) => StripeWord(w, PWord(w), QWord(log, ilog, w), k, d))
  }

  /** If all bytes but one of two lanes agree, their sum differs as that byte does. */
  lemma FoldOneOff(x: seq<bv8>, y: seq<bv8>, a: nat)
    requires |x| == |y| == 5 && a < 5 && forall c :: 0 <= c < 5 && c != a ==> x[c] == y[c]
    requires XorFold(x, 5) == XorFold(y, 5)
    ensures x == y
  {
    var d, lo := Difference(x, y), if a < 4 then a else 3;
    forall c | 0 <= c < 5 && c != a ensures d[c] == 0 {
      XorEqual(x[c], y[c]);
    }
    FoldDifference(x, y, 5);
    SparseFold(d, lo, lo + 1, 5);
    XorEqual(XorFold(x, 5), XorFold(y, 5));
    XorEqual(d[lo], d[lo + 1]);
    XorEqual(x[a], y[a]);
  }

  lemma OneByP(w: Data, v: Data, a: nat)
    requires a < 5 && (forall c :: 0 <= c < 5 && c != a ==> w[c] == v[c]) && PWord(w) == PWord(v)
    ensures w == v
  {
    hide PWord, XorFold;
    forall l | 0 <= l < 8 ensures w[a][l] == v[a][l] {
      PLane(w, l);
      PLane(v, l);
      FoldOneOff(Lane(w, l), Lane(v, l), a);
      assert Lane(w, l)[a] == Lane(v, l)[a];
    }
    forall c | 0 <= c < 5 ensures w[c] == v[c] {
      if c == a { assert w[a] == v[a]; }
    }
  }

  lemma LaneByQ(log: seq<nat>, ilog: seq<bv8>, w: Data, v: Data, a: nat, l: nat)
    requires Built(log, ilog) && AllInRange(log, w) && AllInRange(log, v) && a < 5 && l < 8
    requires LookupsInside(log, ilog, w) && LookupsInside(log, ilog, v)
    requires forall c :: 0 <= c < 5 && c != a ==> w[c][l] == v[c][l]
    requires QWord(log, ilog, w)[l] == QWord(log, ilog, v)[l]
    ensures w[a][l] == v[a][l]
  {
    hide QWord, Built, AllInRange, LookupsInside;
    QLane(log, ilog, w, l);
    QLane(log, ilog, v, l);
    var x, y := Weighted(Lane(w, l)), Weighted(Lane(v, l));
    FoldOneOff(x, y, a);
    assert x[a] == y[a];
    XtimeNInjective(a, w[a][l], v[a][l]);
  }

  lemma OneByQ(log: seq<nat>, ilog: seq<bv8>, w: Data, v: Data, a: nat)
    requires Built(log, ilog) && AllInRange(log, w) && AllInRange(log, v)
    requires LookupsInside(log, ilog, w) && LookupsInside(log, ilog, v)
    requires a < 5 && (forall c :: 0 <= c < 5 && c != a ==> w[c] == v[c]) && QWord(log, ilog, w) == QWord(log, ilog, v)
    ensures w == v
  {
    hide QWord, Built, AllInRange, LookupsInside;
    forall l | 0 <= l < 8 ensures w[a][l] == v[a][l] {
      LaneByQ(log, ilog, w, v, a, l);
    }
    assert w[a] == v[a];
  }

  /** A data word whose device is not lost is the same in both stripes. */
  lemma KeptWord(log: seq<nat>, ilog: seq<bv8>, w: Data, v: Data, k: nat, c: nat)
    requires LookupsInside(log, ilog, w) && LookupsInside(log, ilog, v) && c < 5 && DataDevice(k, c) < 7
    requires Slots(log, ilog, w, k)[DataDevice(k, c)] == Slots(log, ilog, v, k)[DataDevice(k, c)]
    ensures w[c] == v[c]
  {
    SlotOfData(k, c);
  }

  /** Two in-range stripes that agree on any five of their seven stored words are equal,
    * whichever of data, P and Q the other two hold. */
  lemma AnyFiveDetermine(log: seq<nat>, ilog: seq<bv8>, w: Data, v: Data, k: nat, x: nat, y: nat)
    requires Built(log, ilog) && AllInRange(log, w) && AllInRange(log, v) && x < y < 7
    requires LookupsInside(log, ilog, w) && LookupsInside(log, ilog, v)
    requires forall d :: 0 <= d < 7 && d != x && d != y ==> Slots(log, ilog, w, k)[d] == Slots(log, ilog, v, k)[d]
    ensures w == v
  {
    hide StripeWord, QWord, PWord;
    Rotation(k);
    CodeSlots(log, ilog, w, k);
    CodeSlots(log, ilog, v, k);
    var p, q := PAt(k), QAt(k);
    forall c | 0 <= c < 5 && DataDevice(k, c) != x && DataDevice(k, c) != y ensures w[c] == v[c] {
      SlotOfData(k, c);
      KeptWord(log, ilog, w, v, k, c);
    }
    DeviceOfSlot(k, x);
    DeviceOfSlot(k, y);
    if (x == p && y == q) || (x == q && y == p) {
      FiveSlots(k);
    } else if x == p || y == p {
      OneByQ(log, ilog, w, v, DataBefore(k, if x == p then y else x));
    } else if x == q || y == q {
      OneByP(w, v, DataBefore(k, if x == q then y else x));
    } else {
      AnyTwoDetermined(log, ilog, w, v, DataBefore(k, x), DataBefore(k, y));
    }
  }

  lemma CodeSlots(log: seq<nat>, ilog: seq<bv8>, w: Data, k: nat)
    requires LookupsInside(log, ilog, w)
    ensures PAt(k) < 7 && QAt(k) < 7
    ensures Slots(log, ilog, w, k)[PAt(k)] == PWord(w) && Slots(log, ilog, w, k)[QAt(k)] == QWord(log, ilog, w)
  {
    Rotation(k);
  }

  /** A slot that holds data is the device of its own word only. */
  lemma DeviceOfSlot(k: nat, d: nat)
    requires d < 7
    ensures d != PAt(k) && d != QAt(k) ==> DataBefore(k, d) < 5
    ensures d != PAt(k) && d != QAt(k) ==> forall c :: 0 <= c < 5 ==> (DataDevice(k, c) == d <==> c == DataBefore(k, d))
    ensures d == PAt(k) || d == QAt(k) ==> forall c :: 0 <= c < 5 ==> DataDevice(k, c) != d
    ensures forall e :: d < e < 7 && d != PAt(k) && d != QAt(k) && e != PAt(k) && e != QAt(k) ==>
      DataBefore(k, d) < DataBefore(k, e)
  {
    DataBeforeStep(k, d);
    FiveSlots(k);
    Rotation(k);
  }

  // ----- the driver's arrays -----------------------------------------------------------------------------

  ghost function RowsOf(data: array2<bv8>): (r: Rows)
    requires data.Length0 == 7 && data.Length1 >= 8 * STRIPES
    reads data
    ensures forall d, k :: 0 <= d < 7 && 0 <= k < STRIPES ==> r[d][k] == LoadWord(data, d, k)
  {
    seq(7, d requires 0 <= d < 7 && data.Length0 == 7 && data.Length1 >= 8 * STRIPES reads data =>
      seq(STRIPES, k requires 0 <= k < STRIPES && 0 <= d < 7 && data.Length0 == 7 && data.Length1 >= 8 * STRIPES
                     reads data =>
        LoadWord(data, d, k)))
  }

  function BufWords(buf: seq<bv8>): Buffer
    requires |buf| == 520
  {
    seq(65, n requires 0 <= n < 65 => BufWord(buf, n))
  }

  function WithWord(r: Rows, d: nat, k: nat, w: Word): Rows
    requires d < 7 && k < STRIPES
  {
    var row: seq<Word> := r[d];
    r[d := row[k := w]]
  }

  /** Stripes below `stripes` are encoded, and the first n devices of the next one. */
  ghost predicate EncodedTo(r: Rows, buf: Buffer, q: seq<Word>, stripes: nat, n: nat) {
    |q| == STRIPES && n <= 7 && forall k, d {:trigger r[d][k]} ::
      0 <= k < STRIPES && 0 <= d < 7 && (k < stripes || (k == stripes && d < n)) ==>
      r[d][k] == StripeWord(DataOf(buf, k), PWord(DataOf(buf, k)), q[k], k, d)
  }

  lemma EncodeStep(r: Rows, buf: Buffer, q: seq<Word>, k: nat, d: nat)
    requires k < STRIPES && d < 7 && EncodedTo(r, buf, q, k, d)
    ensures var w := DataOf(buf, k);
      EncodedTo(WithWord(r, d, k, StripeWord(w, PWord(w), q[k], k, d)), buf, q, k, d + 1)
  {
  }

  class SsdArray6 {
    const data: array2<bv8>
    const writeBuffer: array<bv8>
    const readBuffer: array<bv8>
    const gflogTbl: array<nat>
    const gfilogTbl: array<bv8>

    ghost predicate Valid()
      reads this
    {
      && data.Length0 == MAX_SSD_DEV && data.Length1 == MAX_LBAS_PER_SSD * LBA_SIZE
      && writeBuffer.Length == 520 && readBuffer.Length == 520 && writeBuffer != readBuffer
      && gflogTbl.Length == 256 <= gfilogTbl.Length
      && readBuffer != gfilogTbl && writeBuffer != gfilogTbl
    }

    ghost function Contents(): Rows
      requires Valid()
      reads this, data
    {
      RowsOf(data)
    }

    /** Every table lookup for the buffer stays inside the memory modelled from the antilog table on. */
    ghost predicate Encodable()
      requires Valid()
      reads this, writeBuffer, gflogTbl, gfilogTbl
    {
      forall k :: 0 <= k < STRIPES ==> Readable(gflogTbl[..], gfilogTbl[..], DataOf(BufWords(writeBuffer[..]), k))
    }

    /** The Q words of the buffer. */
    ghost function Codes(): (q: seq<Word>)
      requires Valid() && Encodable()
      reads this, writeBuffer, gflogTbl, gfilogTbl
      ensures |q| == STRIPES
      ensures forall k :: 0 <= k < STRIPES ==>
        q[k] == QWord(gflogTbl[..], gfilogTbl[..], DataOf(BufWords(writeBuffer[..]), k))
    {
      seq(STRIPES, k requires 0 <= k < STRIPES && Valid() && Encodable() reads this, writeBuffer, gflogTbl, gfilogTbl =>
        QWord(gflogTbl[..], gfilogTbl[..], DataOf(BufWords(writeBuffer[..]), k)))
    }

    method Put(d: nat, k: nat, w: Word)
      requires Valid() && d < 7 && k < STRIPES
      modifies data
      ensures Contents() == WithWord(old(Contents()), d, k, w)
      ensures forall e, b :: 0 <= e < 7 && 104 <= b < data.Length1 ==> data[e, b] == old(data[e, b])
    {
      StoreWord(data, d, k, w);
      ghost var before := old(Contents());
      forall e | 0 <= e < 7 ensures Contents()[e] == WithWord(before, d, k, w)[e] {
      }
    }

    method ComputeRaid6()
      requires Valid() && Encodable()
      modifies data
      ensures Encodes(Contents(), BufWords(writeBuffer[..]), Codes())
      ensures forall e, b :: 0 <= e < 7 && 104 <= b < data.Length1 ==> data[e, b] == old(data[e, b])
    {
      ghost var buf, codes := BufWords(writeBuffer[..]), Codes();
      var p, q, curLoc := 5, 6, 0;
      for k := 0 to 13
        invariant p == PAt(k) && q == QAt(k) && curLoc == 5 * k
        invariant EncodedTo(Contents(), buf, codes, k, 0)
        invariant forall e, b :: 0 <= e < 7 && 104 <= b < data.Length1 ==> data[e, b] == old(data[e, b])
      {
        ComputeStripe(k, p, q, curLoc);
        curLoc := curLoc + 5;
        Rotation(k);
        p := if p == 0 then 6 else p - 1;
        q := if q == 0 then 6 else q - 1;
      }
    }

    method ComputeStripe(k: nat, p: nat, q: nat, curLoc: nat)
      requires Valid() && Encodable() && k < STRIPES && p == PAt(k) && q == QAt(k) && curLoc == 5 * k
      requires EncodedTo(Contents(), BufWords(writeBuffer[..]), Codes(), k, 0)
      modifies data
      ensures EncodedTo(Contents(), BufWords(writeBuffer[..]), Codes(), k + 1, 0)
      ensures forall e, b :: 0 <= e < 7 && 104 <= b < data.Length1 ==> data[e, b] == old(data[e, b])
    {
      ghost var buf, codes := BufWords(writeBuffer[..]), Codes();
      var dataIp := LoadFive(writeBuffer[..], curLoc);
      assert dataIp == DataOf(buf, k);
      var parityOut := Xor(Xor(Xor(Xor(dataIp[0], dataIp[1]), dataIp[2]), dataIp[3]), dataIp[4]);
      var j := 0;
      for i := 0 to 7
        invariant j == DataBefore(k, i)
        invariant EncodedTo(Contents(), buf, codes, k, i)
        invariant forall e, b :: 0 <= e < 7 && 104 <= b < data.Length1 ==> data[e, b] == old(data[e, b])
      {
        DataBeforeStep(k, i);
        EncodeStep(Contents(), buf, codes, k, i);
        if i != p && i != q {
          Put(i, k, dataIp[j]);
          j := j + 1;
        } else if i == p {
          Put(i, k, parityOut);
        } else {
          var qparity := QLba(gflogTbl, gfilogTbl, dataIp);
          Put(i, k, qparity);
        }
      }
    }

    method DecodeRaid6()
      requires Valid()
      modifies readBuffer
      ensures DecodesTo(Contents(), BufWords(readBuffer[..]), 65)
    {
      ghost var r := Contents();
      var p, q, j := 5, 6, 0;
      for k := 0 to 13
        invariant p == PAt(k) && q == QAt(k) && j == 5 * k
        invariant DecodesTo(r, BufWords(readBuffer[..]), j)
      {
        for i := 0 to 7
          invariant j == 5 * k + DataBefore(k, i)
          invariant DecodesTo(r, BufWords(readBuffer[..]), j)
        {
          DataBeforeStep(k, i);
          if i != p && i != q {
            DecodeStep(r, BufWords(readBuffer[..]), k, i, j);
            SetReadWord(j, LoadWord(data, i, k));
            j := j + 1;
          }
        }
        DataBeforeStep(k, 0);
        Rotation(k);
        p := if p == 0 then 6 else p - 1;
        q := if q == 0 then 6 else q - 1;
      }
    }

    method SetReadWord(n: nat, w: Word)
      requires Valid() && n < 65
      modifies readBuffer
      ensures BufWords(readBuffer[..]) == BufWords(old(readBuffer[..]))[n := w]
    {
      forall i | 0 <= i < 8 {
        readBuffer[8 * n + i] := w[i];
      }
      ghost var before := old(readBuffer[..]);
      forall m | 0 <= m < 65 ensures BufWords(readBuffer[..])[m] == BufWords(before)[n := w][m] {
        forall i | 0 <= i < 8 ensures BufWord(readBuffer[..], m)[i] == BufWords(before)[n := w][m][i] { }
      }
    }

    /** ssd_write on the array's minor number while no device has failed. */
    method ArrayWrite(bytes: seq<bv8>)
      requires Valid() && |bytes| == 512 && TablesReadable(gflogTbl[..], gfilogTbl[..])
      modifies writeBuffer, data
      ensures writeBuffer[..] == bytes + old(writeBuffer[512..])
      ensures Encodable() && Encodes(Contents(), BufWords(writeBuffer[..]), Codes())
    {
      ghost var log, ilog := gflogTbl[..], gfilogTbl[..];
      forall i | 0 <= i < 512 {
        writeBuffer[i] := bytes[i];
      }
      assert gflogTbl[..] == log && gfilogTbl[..] == ilog;
      forall k | 0 <= k < STRIPES
        ensures Readable(gflogTbl[..], gfilogTbl[..], DataOf(BufWords(writeBuffer[..]), k))
      {
        WordsReadable(gflogTbl[..], gfilogTbl[..], DataOf(BufWords(writeBuffer[..]), k));
      }
      ghost var buf := writeBuffer[..];
      for i := 0 to 512
        invariant writeBuffer[..] == buf && Encodable()
        invariant i > 0 ==> Encodes(Contents(), BufWords(writeBuffer[..]), Codes())
      {
        ComputeRaid6();
      }
    }

    /** ssd_read on the array's minor number while no device has failed. */
    method ArrayRead() returns (bytes: seq<bv8>)
      requires Valid()
      modifies readBuffer
      ensures DecodesTo(Contents(), BufWords(readBuffer[..]), 65) && bytes == readBuffer[..512]
    {
      DecodeRaid6();
      bytes := readBuffer[..512];
    }
  }

  lemma BufWordsInjective(a: seq<bv8>, b: seq<bv8>)
    requires |a| == |b| == 520 && BufWords(a) == BufWords(b)
    ensures a == b
  {
    forall i | 0 <= i < 520 ensures a[i] == b[i] {
      assert BufWords(a)[i / 8][i % 8] == a[i];
      assert BufWords(b)[i / 8][i % 8] == b[i];
    }
  }

  /** A read returns the bytes of the last write, whatever the tables hold, and puts all 520 encoded bytes back. */
  method WriteThenRead(a: SsdArray6, bytes: seq<bv8>) returns (out: seq<bv8>)
    requires a.Valid() && |bytes| == 512 && TablesReadable(a.gflogTbl[..], a.gfilogTbl[..])
    modifies a.writeBuffer, a.readBuffer, a.data
    ensures out == bytes && a.readBuffer[..] == bytes + old(a.writeBuffer[512..])
  {
    a.ArrayWrite(bytes);
    ghost var codes := a.Codes();
    out := a.ArrayRead();
    DecodeInvertsEncode(a.Contents(), BufWords(a.writeBuffer[..]), codes, BufWords(a.readBuffer[..]));
    BufWordsInjective(a.writeBuffer[..], a.readBuffer[..]);
  }

  function LoadFive(buf: seq<bv8>, n: nat): (w: Data)
    requires |buf| == 520 && n + 5 <= 65
    ensures w == BufWords(buf)[n..n + 5]
  {
    [BufWord(buf, n), BufWord(buf, n + 1), BufWord(buf, n + 2), BufWord(buf, n + 3), BufWord(buf, n + 4)]
  }

  lemma DecodeStep(r: Rows, buf: Buffer, k: nat, d: nat, n: nat)
    requires k < STRIPES && d < 7 && d != PAt(k) && d != QAt(k) && n == 5 * k + DataBefore(k, d)
    requires DecodesTo(r, buf, n)
    ensures n < 65 && DecodesTo(r, buf[n := r[d][k]], n + 1)
  {
    DataBeforeStep(k, d);
    assert n / 5 == k && n % 5 == DataBefore(k, d);
  }
}
