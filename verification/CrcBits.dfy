/** CRC registers as W-bit words, most significant bit first, and the shift-register step. */
module CrcBits {

  type Bits = seq<bool>
  type Byte = b: Bits | |b| == 8 witness [false, false, false, false, false, false, false, false]

  /** Division steps per message byte. */
  const BYTE: nat := 8

  function Zeros(n: nat): (z: Bits)
    ensures |z| == n && forall i :: 0 <= i < n ==> !z[i]
  {
    seq(n, _ => false)
  }

  function Xor(a: Bits, b: Bits): (r: Bits)
    requires |a| == |b|
    ensures |r| == |a| && forall i :: 0 <= i < |a| ==> r[i] == (a[i] != b[i])
  {
    seq(|a|, i requires 0 <= i < |a| => a[i] != b[i])
  }

  /** r << n. */
  function Shl(r: Bits, n: nat): (s: Bits)
    requires n <= |r|
    ensures |s| == |r|
  {
    r[n..] + Zeros(n)
  }

  /** b << (width - |b|). */
  function Place(b: Bits, width: nat): (r: Bits)
    requires |b| <= width
    ensures |r| == width
  {
    b + Zeros(width - |b|)
  }

  function Reversed(s: Bits): (r: Bits)
    ensures |r| == |s| && forall i :: 0 <= i < |s| ==> r[i] == s[|s| - 1 - i]
  {
    seq(|s|, i requires 0 <= i < |s| => s[|s| - 1 - i])
  }

  /** One division step: shift, and subtract the generator when a one leaves. */
  function BitStep(poly: Bits, r: Bits): (s: Bits)
    requires |r| == |poly| > 0
    ensures |s| == |r|
  {
    if r[0] then Xor(Shl(r, 1), poly) else Shl(r, 1)
  }

  function Steps(poly: Bits, r: Bits, n: nat): (s: Bits)
    requires |r| == |poly| > 0
    ensures |s| == |r|
    decreases n
  {
    if n == 0 then r else Steps(poly, BitStep(poly, r), n - 1)
  }

  /** Long division, one dividend bit at a time: the bit joins the one that is about to leave. */
  function AddBit(poly: Bits, r: Bits, m: bool): (s: Bits)
    requires |r| == |poly| > 0
    ensures |s| == |r|
  {
    BitStep(poly, r[0 := r[0] != m])
  }

  function Feed(poly: Bits, r: Bits, stream: Bits): (s: Bits)
    requires |r| == |poly| > 0
    ensures |s| == |r|
    decreases |stream|
  {
    if stream == [] then r else Feed(poly, AddBit(poly, r, stream[0]), stream[1..])
  }

  lemma BitStepAt(poly: Bits, r: Bits, i: nat)
    requires |r| == |poly| > i
    ensures BitStep(poly, r)[i] == ((i + 1 < |r| && r[i + 1]) != (r[0] && poly[i]))
  {
  }

  // ----- linearity -------------------------------------------------------------------------------

  lemma BitStepLinear(poly: Bits, a: Bits, b: Bits)
    requires |a| == |b| == |poly| > 0
    ensures BitStep(poly, Xor(a, b)) == Xor(BitStep(poly, a), BitStep(poly, b))
  {
    forall i | 0 <= i < |a| ensures BitStep(poly, Xor(a, b))[i] == Xor(BitStep(poly, a), BitStep(poly, b))[i] {
      BitStepAt(poly, a, i);
      BitStepAt(poly, b, i);
      BitStepAt(poly, Xor(a, b), i);
    }
  }

  lemma {:induction false} StepsLinear(poly: Bits, a: Bits, b: Bits, n: nat)
    requires |a| == |b| == |poly| > 0
    ensures Steps(poly, Xor(a, b), n) == Xor(Steps(poly, a, n), Steps(poly, b, n))
    decreases n
  {
    if n > 0 {
      BitStepLinear(poly, a, b);
      StepsLinear(poly, BitStep(poly, a), BitStep(poly, b), n - 1);
    }
  }

  /** While only zeros leave, the steps are a plain shift. */
  lemma {:induction false} StepsShift(poly: Bits, r: Bits, n: nat)
    requires |r| == |poly| > 0 && n <= |r| && forall i :: 0 <= i < n ==> !r[i]
    ensures Steps(poly, r, n) == Shl(r, n)
    decreases n
  {
    if n == 0 {
      assert Shl(r, 0) == r;
    } else {
      var s := Shl(r, 1);
      assert forall i :: 0 <= i < n - 1 ==> s[i] == r[i + 1];
      StepsShift(poly, s, n - 1);
      assert Shl(s, n - 1) == Shl(r, n);
    }
  }

  /** Eight steps split into a table part, from the top byte, and a shift of the rest. */
  lemma EightSteps(poly: Bits, r: Bits)
    requires |r| == |poly| >= 8
    ensures Steps(poly, r, BYTE) == Xor(Steps(poly, Place(r[..8], |r|), BYTE), Shl(r, 8))
  {
    var top, low := Place(r[..8], |r|), Zeros(8) + r[8..];
    assert Xor(top, low) == r;
    StepsLinear(poly, top, low, BYTE);
    StepsShift(poly, low, BYTE);
    assert Shl(low, 8) == Shl(r, 8);
  }

  // ----- bit by bit or all at once --------------------------------------------------------------------

  lemma {:induction false} FeedAppend(poly: Bits, r: Bits, a: Bits, b: Bits)
    requires |r| == |poly| > 0
    ensures Feed(poly, r, a + b) == Feed(poly, Feed(poly, r, a), b)
    decreases |a|
  {
    if a == [] {
      assert a + b == b;
    } else {
      assert (a + b)[1..] == a[1..] + b;
      FeedAppend(poly, AddBit(poly, r, a[0]), a[1..], b);
    }
  }

  lemma AddBitPlaced(poly: Bits, r: Bits, u: Bits)
    requires |r| == |poly| && 0 < |u| <= |r|
    ensures BitStep(poly, Xor(r, Place(u, |r|))) == Xor(AddBit(poly, r, u[0]), Place(u[1..], |r|))
  {
    var x, y := Xor(r, Place(u, |r|)), r[0 := r[0] != u[0]];
    forall i | 0 <= i < |r| ensures BitStep(poly, x)[i] == Xor(BitStep(poly, y), Place(u[1..], |r|))[i] {
      BitStepAt(poly, x, i);
      BitStepAt(poly, y, i);
    }
  }

  /** A stream that fits the register may be added all at once, ahead of its steps. */
  lemma {:induction false} FeedIsSteps(poly: Bits, r: Bits, u: Bits)
    requires |r| == |poly| > 0 && |u| <= |r|
    ensures Feed(poly, r, u) == Steps(poly, Xor(r, Place(u, |r|)), |u|)
    decreases |u|
  {
    if u == [] {
      assert Xor(r, Place(u, |r|)) == r;
    } else {
      AddBitPlaced(poly, r, u);
      FeedIsSteps(poly, AddBit(poly, r, u[0]), u[1..]);
    }
  }

  // ----- the step is a bijection for an odd generator, and merges two registers for an even one --------

  lemma BitStepInjective(poly: Bits, a: Bits, b: Bits)
    requires |a| == |b| == |poly| > 0 && poly[|poly| - 1]
    requires BitStep(poly, a) == BitStep(poly, b)
    ensures a == b
  {
    BitStepAt(poly, a, |a| - 1);
    BitStepAt(poly, b, |a| - 1);
    forall i | 0 < i < |a| ensures a[i] == b[i] {
      BitStepAt(poly, a, i - 1);
      BitStepAt(poly, b, i - 1);
    }
  }

  lemma {:induction false} StepsInjective(poly: Bits, a: Bits, b: Bits, n: nat)
    requires |a| == |b| == |poly| > 0 && poly[|poly| - 1]
    requires Steps(poly, a, n) == Steps(poly, b, n)
    ensures a == b
    decreases n
  {
    if n > 0 {
      StepsInjective(poly, BitStep(poly, a), BitStep(poly, b), n - 1);
      BitStepInjective(poly, a, b);
    }
  }

  lemma {:induction false} FeedInjective(poly: Bits, a: Bits, b: Bits, stream: Bits)
    requires |a| == |b| == |poly| > 0 && poly[|poly| - 1]
    requires Feed(poly, a, stream) == Feed(poly, b, stream)
    ensures a == b
    decreases |stream|
  {
    if stream != [] {
      var x, y := a[0 := a[0] != stream[0]], b[0 := b[0] != stream[0]];
      FeedInjective(poly, BitStep(poly, x), BitStep(poly, y), stream[1..]);
      BitStepInjective(poly, x, y);
      SameButFirst(a, b, stream[0]);
    }
  }

  lemma SameButFirst(a: Bits, b: Bits, m: bool)
    requires |a| == |b| > 0 && a[0 := a[0] != m] == b[0 := b[0] != m]
    ensures a == b
  {
    forall i | 0 <= i < |a| ensures a[i] == b[i] {
      assert a[0 := a[0] != m][i] == b[0 := b[0] != m][i];
    }
  }

  lemma XorCancels(a: Bits, b: Bits, c: Bits)
    requires |a| == |b| == |c| && Xor(a, b) == Xor(a, c)
    ensures b == c
  {
    forall i | 0 <= i < |a| ensures b[i] == c[i] {
      assert Xor(a, b)[i] == Xor(a, c)[i];
    }
  }

  /** Streams that fit the register are told apart from any start. */
  lemma WindowInjective(poly: Bits, r: Bits, u: Bits, v: Bits)
    requires |r| == |poly| > 0 && poly[|poly| - 1] && |u| == |v| <= |r|
    requires Feed(poly, r, u) == Feed(poly, r, v)
    ensures u == v
  {
    var x, y := Place(u, |r|), Place(v, |r|);
    FeedIsSteps(poly, r, u);
    FeedIsSteps(poly, r, v);
    StepsInjective(poly, Xor(r, x), Xor(r, y), |u|);
    XorCancels(r, x, y);
    assert u == x[..|u|] && v == y[..|u|];
  }

  /** An even generator takes two full windows to the same register, from any start. */
  lemma EvenMerges(poly: Bits, r: Bits) returns (u: Bits, v: Bits)
    requires |r| == |poly| > 0 && !poly[|poly| - 1]
    ensures |u| == |v| == |r| && u != v && Feed(poly, r, u) == Feed(poly, r, v)
  {
    var n := |poly|;
    var a, b := [true] + Zeros(n - 1), [false] + poly[..n - 1];
    assert a[0] && !b[0];
    assert BitStep(poly, a) == poly;
    assert BitStep(poly, b) == poly;
    u, v := Xor(r, a), Xor(r, b);
    assert u[0] != v[0];
    FeedIsSteps(poly, r, u);
    FeedIsSteps(poly, r, v);
    assert Xor(r, Place(u, n)) == a && Xor(r, Place(v, n)) == b;
  }

  /** The start register acts as if XORed onto the first bits of a long enough stream. */
  lemma StartIsXored(poly: Bits, r: Bits, head: Bits, rest: Bits)
    requires |r| == |head| == |poly| > 0
    ensures Feed(poly, r, head + rest) == Feed(poly, Zeros(|r|), Xor(r, head) + rest)
  {
    hide Feed, Xor, Zeros;
    FeedAppend(poly, r, head, rest);
    FeedAppend(poly, Zeros(|r|), Xor(r, head), rest);
    StartIsAdded(poly, r, head);
  }

  lemma PlaceWhole(b: Bits)
    ensures Place(b, |b|) == b
  {
  }

  lemma XorZeros(b: Bits)
    ensures Xor(Zeros(|b|), b) == b
  {
  }

  lemma StartIsAdded(poly: Bits, r: Bits, head: Bits)
    requires |r| == |head| == |poly| > 0
    ensures Feed(poly, r, head) == Feed(poly, Zeros(|r|), Xor(r, head))
  {
    hide Feed, Steps, Xor, Place, Zeros;
    FeedIsSteps(poly, r, head);
    FeedIsSteps(poly, Zeros(|r|), Xor(r, head));
    PlaceWhole(head);
    PlaceWhole(Xor(r, head));
    XorZeros(Xor(r, head));
  }
}
