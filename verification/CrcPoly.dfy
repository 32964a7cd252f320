/** Polynomials over GF(2) as sets of exponents; the CRC register is a division remainder. */
module CrcPoly {
  import opened CrcBits
  import opened Crc

  type Poly = set<nat>

  /** Sum, which is also difference. */
  function Plus(a: Poly, b: Poly): (s: Poly)
    ensures forall e :: e in s <==> (e in a) != (e in b)
  {
    (a - b) + (b - a)
  }

  /** Product with x^k. */
  function TimesX(a: Poly, k: nat): (s: Poly)
    ensures forall e :: e in s <==> k <= e && e - k in a
  {
    set e | e in a :: e + k
  }

  predicate HasTerm(b: Bits, e: nat) {
    e < |b| && b[|b| - 1 - e]
  }

  /** The polynomial whose coefficients, highest first, are b. */
  function PolyOf(b: Bits): (s: Poly)
    ensures forall e: nat :: e in s <==> HasTerm(b, e)
  {
    set e: nat | e < |b| && HasTerm(b, e)
  }

  /** The generator, whose top coefficient x^W the parameter sets leave out. */
  function Generator(poly: Bits): Poly {
    PolyOf(poly) + {|poly|}
  }

  function Scaled(c: bool, g: Poly): Poly {
    if c then g else {}
  }

  /** Product of a quotient, coefficients highest first, and g. */
  function Times(q: Bits, g: Poly): Poly
    decreases |q|
  {
    if q == [] then {} else Plus(TimesX(Times(q[..|q| - 1], g), 1), Scaled(q[|q| - 1], g))
  }

  ghost predicate Below(a: Poly, n: nat) {
    forall e :: e in a ==> e < n
  }

  /** r is what remains of a when multiples of g are taken away, and has no term from x^n on. */
  ghost predicate IsRemainder(a: Poly, g: Poly, n: nat, r: Poly) {
    Below(r, n) && exists q: Bits :: a == Plus(Times(q, g), r)
  }

  // ----- existence: the register is a remainder -------------------------------------------------------

  /** start * x^n + message * x^W, for a stream of n bits. */
  function Dividend(r: Bits, stream: Bits): Poly {
    Plus(TimesX(PolyOf(r), |stream|), TimesX(PolyOf(stream), |r|))
  }

  lemma TermOfAppend(s: Bits, m: bool, e: nat)
    ensures HasTerm(s + [m], e) <==> if e == 0 then m else HasTerm(s, e - 1)
  {
  }

  lemma PolyOfAppend(s: Bits, m: bool)
    ensures PolyOf(s + [m]) == Plus(TimesX(PolyOf(s), 1), Scaled(m, {0}))
  {
    hide HasTerm;
    forall e: nat ensures e in PolyOf(s + [m]) <==> e in Plus(TimesX(PolyOf(s), 1), Scaled(m, {0})) {
      TermOfAppend(s, m, e);
    }
  }

  lemma TimesXPlus(a: Poly, b: Poly, k: nat)
    ensures TimesX(Plus(a, b), k) == Plus(TimesX(a, k), TimesX(b, k))
  {
  }

  lemma TimesXTwice(a: Poly, j: nat, k: nat)
    ensures TimesX(TimesX(a, j), k) == TimesX(a, j + k)
  {
  }

  lemma TimesXScaled(m: bool, w: nat)
    ensures TimesX(Scaled(m, {0}), w) == Scaled(m, {w})
  {
  }

  lemma PlusAssociates(a: Poly, b: Poly, c: Poly)
    ensures Plus(a, Plus(b, c)) == Plus(Plus(a, b), c)
  {
  }

  /** Bringing in one more bit multiplies the dividend by x and adds the bit's term. */
  lemma DividendNext(r: Bits, s: Bits, m: bool)
    ensures Dividend(r, s + [m]) == Plus(TimesX(Dividend(r, s), 1), Scaled(m, {|r|}))
  {
    hide Plus, TimesX, PolyOf, Scaled;
    var n, w, a, b := |s|, |r|, PolyOf(r), PolyOf(s);
    PolyOfAppend(s, m);
    TimesXPlus(TimesX(b, 1), Scaled(m, {0}), w);
    TimesXScaled(m, w);
    TimesXTwice(b, 1, w);
    TimesXTwice(b, w, 1);
    TimesXTwice(a, n, 1);
    TimesXPlus(TimesX(a, n), TimesX(b, w), 1);
    PlusAssociates(TimesX(a, n + 1), TimesX(b, w + 1), Scaled(m, {w}));
  }

  lemma StepAt(poly: Bits, r: Bits, m: bool, e: nat)
    requires |r| == |poly| > 0
    ensures (e in TimesX(PolyOf(r), 1)) == (e >= 1 && HasTerm(r, e - 1))
    ensures (e in Scaled(r[0] != m, Generator(poly))) == ((r[0] != m) && (e == |r| || HasTerm(poly, e)))
    ensures HasTerm(AddBit(poly, r, m), e) ==
            (e < |r| && (e >= 1 && HasTerm(r, e - 1)) != ((r[0] != m) && HasTerm(poly, e)))
  {
    if e < |r| {
      BitStepAt(poly, r[0 := r[0] != m], |r| - 1 - e);
    }
  }

  /** x * register + bit * x^W is the next register plus the quotient bit times the generator. */
  lemma StepDivides(poly: Bits, r: Bits, m: bool)
    requires |r| == |poly| > 0
    ensures Plus(TimesX(PolyOf(r), 1), Scaled(m, {|r|})) ==
            Plus(Scaled(r[0] != m, Generator(poly)), PolyOf(AddBit(poly, r, m)))
  {
    var a := Plus(TimesX(PolyOf(r), 1), Scaled(m, {|r|}));
    var b := Plus(Scaled(r[0] != m, Generator(poly)), PolyOf(AddBit(poly, r, m)));
    forall e: nat ensures e in a <==> e in b {
      StepAt(poly, r, m, e);
    }
  }

  lemma NoDividend(r: Bits)
    ensures Dividend(r, []) == PolyOf(r) == Plus({}, PolyOf(r))
  {
  }

  /** The long-division invariant, with the quotient bits collected. */
  lemma {:induction false} FeedDivides(poly: Bits, r: Bits, stream: Bits) returns (q: Bits)
    requires |r| == |poly| > 0
    ensures |q| == |stream|
    ensures Dividend(r, stream) == Plus(Times(q, Generator(poly)), PolyOf(Feed(poly, r, stream)))
    decreases |stream|
  {
    hide Plus, TimesX, PolyOf, Scaled, AddBit, Dividend, Generator;
    if stream == [] {
      q := [];
      NoDividend(r);
    } else {
      var s, m := stream[..|stream| - 1], stream[|stream| - 1];
      var q' := FeedDivides(poly, r, s);
      var r' := Feed(poly, r, s);
      q := q' + [r'[0] != m];
      assert stream == s + [m];
      FeedAppend(poly, r, s, [m]);
      assert Feed(poly, r, stream) == AddBit(poly, r', m);
      DividendNext(r, s, m);
      StepDivides(poly, r', m);
      assert q[..|q| - 1] == q';
      Regroup(Times(q', Generator(poly)), PolyOf(r'), Scaled(m, {|r|}),
              Scaled(r'[0] != m, Generator(poly)), PolyOf(AddBit(poly, r', m)));
    }
  }

  lemma Regroup(t: Poly, r: Poly, m: Poly, g: Poly, next: Poly)
    requires Plus(TimesX(r, 1), m) == Plus(g, next)
    ensures Plus(TimesX(Plus(t, r), 1), m) == Plus(Plus(TimesX(t, 1), g), next)
  {
    var a, b := Plus(TimesX(Plus(t, r), 1), m), Plus(Plus(TimesX(t, 1), g), next);
    forall e: nat ensures e in a <==> e in b {
      assert e in Plus(TimesX(r, 1), m) <==> e in Plus(g, next);
      if e >= 1 {
        assert e - 1 in Plus(t, r) <==> (e - 1 in t) != (e - 1 in r);
      }
    }
  }

  // ----- uniqueness -----------------------------------------------------------------------------------------

  /** A product with leading coefficient one has degree |q| - 1 + W. */
  lemma {:induction false} TimesDegree(q: Bits, poly: Bits)
    requires q != [] && q[0]
    ensures |q| - 1 + |poly| in Times(q, Generator(poly))
    decreases |q|
  {
    var g := Generator(poly);
    if |q| == 1 {
      assert q[..0] == [];
      assert |poly| in Plus(TimesX({}, 1), g);
    } else {
      var q' := q[..|q| - 1];
      TimesDegree(q', poly);
      assert |q'| - 1 + |poly| in Times(q', g);
      assert |q| - 1 + |poly| in TimesX(Times(q', g), 1);
      assert |q| - 1 + |poly| !in g;
    }
  }

  lemma {:induction false} TimesLeadingZero(q: Bits, g: Poly)
    ensures Times([false] + q, g) == Times(q, g)
    decreases |q|
  {
    var z := [false] + q;
    if q == [] {
      assert z[..0] == [];
      assert Times(z, g) == Plus(TimesX({}, 1), {});
    } else {
      assert z[..|z| - 1] == [false] + q[..|q| - 1];
      TimesLeadingZero(q[..|q| - 1], g);
    }
  }

  /** Only the zero multiple of the generator has degree below W. */
  lemma {:induction false} SmallMultipleIsZero(q: Bits, poly: Bits)
    requires Below(Times(q, Generator(poly)), |poly|)
    ensures Times(q, Generator(poly)) == {}
    decreases |q|
  {
    if q != [] {
      if q[0] {
        TimesDegree(q, poly);
      } else {
        assert q == [false] + q[1..];
        TimesLeadingZero(q[1..], Generator(poly));
        SmallMultipleIsZero(q[1..], poly);
      }
    }
  }

  lemma {:induction false} TimesXor(a: Bits, b: Bits, g: Poly)
    requires |a| == |b|
    ensures Times(Xor(a, b), g) == Plus(Times(a, g), Times(b, g))
    decreases |a|
  {
    if a != [] {
      var n := |a| - 1;
      TimesXor(a[..n], b[..n], g);
      assert Xor(a, b)[..n] == Xor(a[..n], b[..n]);
      Interchange(Times(a[..n], g), Times(b[..n], g), Scaled(a[n], g), Scaled(b[n], g), Scaled(a[n] != b[n], g));
    }
  }

  lemma Interchange(a: Poly, b: Poly, c: Poly, d: Poly, s: Poly)
    requires s == Plus(c, d)
    ensures Plus(TimesX(Plus(a, b), 1), s) == Plus(Plus(TimesX(a, 1), c), Plus(TimesX(b, 1), d))
  {
    var x, y := Plus(TimesX(Plus(a, b), 1), s), Plus(Plus(TimesX(a, 1), c), Plus(TimesX(b, 1), d));
    forall e: nat ensures e in x <==> e in y {
      if e >= 1 {
        assert e - 1 in Plus(a, b) <==> (e - 1 in a) != (e - 1 in b);
      }
    }
  }

  lemma {:induction false} Padded(q: Bits, g: Poly, n: nat)
    ensures Times(Zeros(n) + q, g) == Times(q, g)
    decreases n
  {
    if n == 0 {
      assert Zeros(0) + q == q;
    } else {
      Padded(q, g, n - 1);
      TimesLeadingZero(Zeros(n - 1) + q, g);
      assert Zeros(n) + q == [false] + (Zeros(n - 1) + q);
    }
  }

  lemma SumOfMultiples(p: Bits, q: Bits, g: Poly) returns (s: Bits)
    ensures Times(s, g) == Plus(Times(p, g), Times(q, g))
  {
    var p', q' := Zeros(|q|) + p, Zeros(|p|) + q;
    Padded(p, g, |q|);
    Padded(q, g, |p|);
    TimesXor(p', q', g);
    s := Xor(p', q');
  }

  lemma RemainderIsUnique(a: Poly, poly: Bits, r: Poly, s: Poly)
    requires IsRemainder(a, Generator(poly), |poly|, r) && IsRemainder(a, Generator(poly), |poly|, s)
    ensures r == s
  {
    var g := Generator(poly);
    var p: Bits :| a == Plus(Times(p, g), r);
    var q: Bits :| a == Plus(Times(q, g), s);
    var d := SumOfMultiples(p, q, g);
    Moved(Times(p, g), Times(q, g), r, s);
    SmallMultipleIsZero(d, poly);
    SumZero(r, s);
  }

  lemma Moved(p: Poly, q: Poly, r: Poly, s: Poly)
    requires Plus(p, r) == Plus(q, s)
    ensures Plus(p, q) == Plus(r, s)
  {
    forall e: nat ensures e in Plus(p, q) <==> e in Plus(r, s) {
      assert e in Plus(p, r) <==> e in Plus(q, s);
    }
  }

  lemma SumZero(r: Poly, s: Poly)
    requires Plus(r, s) == {}
    ensures r == s
  {
    forall e: nat ensures e in r <==> e in s {
      assert e !in Plus(r, s);
    }
  }

  // ----- the main results ---------------------------------------------------------------------------------------

  /** The register is the remainder, and the only one. */
  lemma RegisterIsRemainder(poly: Bits, r: Bits, stream: Bits, other: Poly)
    requires |r| == |poly| > 0
    ensures IsRemainder(Dividend(r, stream), Generator(poly), |poly|, other) <==> other == PolyOf(Feed(poly, r, stream))
  {
    var q := FeedDivides(poly, r, stream);
    var own := PolyOf(Feed(poly, r, stream));
    assert Below(own, |poly|);
    assert IsRemainder(Dividend(r, stream), Generator(poly), |poly|, own);
    if IsRemainder(Dividend(r, stream), Generator(poly), |poly|, other) {
      RemainderIsUnique(Dividend(r, stream), poly, own, other);
    }
  }

  lemma PolyOfInjective(a: Bits, b: Bits)
    requires |a| == |b| && PolyOf(a) == PolyOf(b)
    ensures a == b
  {
    forall i | 0 <= i < |a| ensures a[i] == b[i] {
      assert |a| - 1 - i in PolyOf(a) <==> a[i];
    }
  }

  /** Before the final reflection and XOR, the CRC is the remainder of start * x^8n + message * x^W. */
  lemma CrcIsRemainder(p: Params, msg: seq<Byte>, r: Bits)
    requires p.Valid() && |r| == p.width
    ensures IsRemainder(Dividend(p.init, Stream(p, msg)), Generator(p.poly), p.width, PolyOf(r)) <==>
            CrcOf(p, msg) == Finish(p, r)
  {
    var own := Feed(p.poly, p.init, Stream(p, msg));
    RegisterIsRemainder(p.poly, p.init, Stream(p, msg), PolyOf(r));
    if PolyOf(r) == PolyOf(own) {
      PolyOfInjective(r, own);
    }
    if CrcOf(p, msg) == Finish(p, r) {
      FinishInjective(p, r, own);
    }
  }

  function Complement(b: Bits): (c: Bits)
    ensures |c| == |b| && forall i :: 0 <= i < |b| ==> c[i] == !b[i]
  {
    seq(|b|, i requires 0 <= i < |b| => !b[i])
  }

  /** Section 3.2.9 of IEEE 802.3 steps (a) to (d): the first W bits complemented, times x^W, modulo the generator. */
  ghost predicate IsFrameRemainder(poly: Bits, head: Bits, rest: Bits, r: Bits) {
    IsRemainder(TimesX(PolyOf(Complement(head) + rest), |poly|), Generator(poly), |poly|, PolyOf(r))
  }

  lemma OnesAsStart(poly: Bits, ones: Bits, head: Bits, rest: Bits)
    requires |ones| == |head| == |poly| > 0 && Complement(ones) == Zeros(|ones|)
    ensures Feed(poly, ones, head + rest) == Feed(poly, Zeros(|poly|), Complement(head) + rest)
    ensures Dividend(Zeros(|poly|), Complement(head) + rest) == TimesX(PolyOf(Complement(head) + rest), |poly|)
  {
    StartIsXored(poly, ones, head, rest);
    forall i | 0 <= i < |ones| ensures ones[i] { assert !Complement(ones)[i]; }
    assert Xor(ones, head) == Complement(head);
  }

  lemma FrameStart(p: Params, s: Bits, head: Bits, rest: Bits, r: Bits)
    requires p.Valid() && Complement(p.init) == Zeros(p.width) && s == head + rest && |head| == |r| == p.width
    ensures IsFrameRemainder(p.poly, head, rest, r) <==> Feed(p.poly, p.init, s) == r
  {
    OnesAsStart(p.poly, p.init, head, rest);
    RegisterIsRemainder(p.poly, Zeros(p.width), Complement(head) + rest, PolyOf(r));
    var own := Feed(p.poly, p.init, s);
    if PolyOf(r) == PolyOf(own) {
      PolyOfInjective(r, own);
    }
  }

  /** With an all-ones start and final XOR and both reflections, the CRC is the frame check sequence:
    * the complemented remainder of the frame whose first W bits are complemented, lowest bit first. */
  lemma FrameCheckSequence(p: Params, msg: seq<Byte>, r: Bits)
    requires p.Valid() && Complement(p.init) == Zeros(p.width) && Complement(p.finalXor) == Zeros(p.width)
    requires p.reflectRemainder && 8 * |msg| >= p.width && |r| == p.width
    ensures IsFrameRemainder(p.poly, Stream(p, msg)[..p.width], Stream(p, msg)[p.width..], r) <==>
            CrcOf(p, msg) == Reversed(Complement(r))
  {
    var s := Stream(p, msg);
    FrameStart(p, s, s[..p.width], s[p.width..], r);
    FinishComplements(p, r);
    var own := Feed(p.poly, p.init, s);
    if Finish(p, own) == Finish(p, r) {
      FinishInjective(p, own, r);
    }
  }

  lemma FinishComplements(p: Params, r: Bits)
    requires p.Valid() && p.reflectRemainder && |r| == p.width && Complement(p.finalXor) == Zeros(p.width)
    ensures Finish(p, r) == Reversed(Complement(r))
  {
    forall i | 0 <= i < p.width ensures Finish(p, r)[i] == Reversed(Complement(r))[i] {
      assert !Complement(p.finalXor)[i];
    }
  }

  lemma WordEnds(v: nat, n: nat)
    requires n > 0
    ensures Word(v, n) == Word(v / 2, n - 1) + [v % 2 == 1]
  {
  }

  lemma {:induction false} WordOfOnes(v: nat, n: nat)
    requires v + 1 == Exp2(n)
    ensures Complement(Word(v, n)) == Zeros(n)
    decreases n
  {
    if n > 0 {
      var u := Word(v / 2, n - 1);
      assert v % 2 == 1 && v / 2 + 1 == Exp2(n - 1);
      WordOfOnes(v / 2, n - 1);
      WordEnds(v, n);
      assert Complement(u + [true]) == Complement(u) + [false];
      assert Zeros(n) == Zeros(n - 1) + [false];
    }
  }

  /** The CRC-32 parameters give the frame check sequence of every message of at least four bytes. */
  lemma Crc32IsFrameCheckSequence(n: Numbers, msg: seq<Byte>, r: Bits)
    requires n == CRC32 && |msg| >= 4 && |r| == n.width
    ensures Standard(n).Valid()
    ensures var p := Standard(n);
      IsFrameRemainder(p.poly, Stream(p, msg)[..n.width], Stream(p, msg)[n.width..], r) <==>
      CrcOf(p, msg) == Reversed(Complement(r))
  {
    StandardsAreValid(n);
    OnesMinusOne(n.init, n.width);
    WordOfOnes(n.init, n.width);
    FrameCheckSequence(Standard(n), msg, r);
  }

  lemma OnesMinusOne(v: nat, n: nat)
    requires v == 0xFFFFFFFF && n == 32
    ensures v + 1 == Exp2(n)
  {
    assert Exp2(8) == 0x100;
    assert Exp2(16) == 0x1_0000;
    assert Exp2(24) == 0x100_0000;
    assert Exp2(32) == 0x1_0000_0000;
  }
}
