/** RAID-5 with rotating parity, on values: 5 devices, 16 stripes, 64 data words. */
module Raid5Spec {
  import opened Words

  const STRIPES: nat := 16

  /** The stripe words of the seven devices, by device and stripe. */
  type Stripes = s: seq<seq<Word>> | |s| == 7 && forall d :: 0 <= d < 7 ==> |s[d]| == STRIPES
    witness seq(7, _ => seq(STRIPES, _ => ZERO))

  type Buffer = b: seq<Word> | |b| == 64 witness seq(64, _ => ZERO)

  function WithWord(s: Stripes, d: nat, k: nat, w: Word): Stripes
    requires d < 7 && k < STRIPES
  {
    var row: seq<Word> := s[d];
    s[d := row[k := w]]
  }

  /** The device that holds the parity of stripe k: 4, 3, 2, 1, 0, 4, ... */
  function ParityAt(k: nat): (p: nat)
    ensures p < 5
  {
    4 - k % 5
  }

  lemma FirstParity()
    ensures ParityAt(0) == 4
  {
  }

  lemma NextParity(k: nat)
    ensures ParityAt(k + 1) == if ParityAt(k) == 0 then 4 else ParityAt(k) - 1
  {
  }

  function Parity(buf: Buffer, k: nat): Word
    requires k < STRIPES
  {
    Xor(Xor(Xor(buf[4 * k], buf[4 * k + 1]), buf[4 * k + 2]), buf[4 * k + 3])
  }

  /** What encoding stores on device d < 5 in stripe k. */
  function EncodedWord(buf: Buffer, d: nat, k: nat): Word
    requires d < 5 && k < STRIPES
  {
    var p := ParityAt(k);
    if d == p then Parity(buf, k) else buf[4 * k + (if d < p then d else d - 1)]
  }

  /** Stripe k with its first n devices encoded. */
  function StripeDone(s: Stripes, buf: Buffer, k: nat, n: nat): Stripes
    requires k < STRIPES && n <= 5
  {
    if n == 0 then s else WithWord(StripeDone(s, buf, k, n - 1), n - 1, k, EncodedWord(buf, n - 1, k))
  }

  lemma NothingDone(s: Stripes, buf: Buffer, k: nat)
    requires k < STRIPES
    ensures StripeDone(s, buf, k, 0) == s
  {
  }

  lemma NextDone(s: Stripes, buf: Buffer, k: nat, n: nat)
    requires k < STRIPES && n < 5
    ensures StripeDone(s, buf, k, n + 1) == WithWord(StripeDone(s, buf, k, n), n, k, EncodedWord(buf, n, k))
  {
  }

  /** The words of stripe k in the order of the devices. */
  lemma WordsOfStripe(buf: Buffer, k: nat)
    requires k < STRIPES
    ensures var p := ParityAt(k);
      EncodedWord(buf, p, k) == Xor(Xor(Xor(buf[4 * k], buf[4 * k + 1]), buf[4 * k + 2]), buf[4 * k + 3]) &&
      forall d :: 0 <= d < 5 && d != p ==> EncodedWord(buf, d, k) == buf[4 * k + (if d < p then d else d - 1)]
  {
  }

  lemma {:induction false} StripeDoneAt(s: Stripes, buf: Buffer, k: nat, n: nat, d: nat, m: nat)
    requires k < STRIPES && n <= 5 && d < 7 && m < STRIPES
    ensures StripeDone(s, buf, k, n)[d][m] == if d < n && m == k then EncodedWord(buf, d, m) else s[d][m]
  {
    if n > 0 {
      StripeDoneAt(s, buf, k, n - 1, d, m);
    }
  }

  predicate Holds(s: Stripes, buf: Buffer, d: nat)
    requires d < 5
  {
    forall k :: 0 <= k < STRIPES ==> s[d][k] == EncodedWord(buf, d, k)
  }

  predicate Encodes(s: Stripes, buf: Buffer) {
    forall d :: 0 <= d < 5 ==> Holds(s, buf, d)
  }

  /** The device that holds data word n. */
  function DataDevice(n: nat): nat {
    if n % 4 < ParityAt(n / 4) then n % 4 else n % 4 + 1
  }

  /** What decoding reads back: the data words in order, parity skipped. */
  function Decoded(s: Stripes): (buf: Buffer)
    ensures forall n :: 0 <= n < 64 ==> buf[n] == s[DataDevice(n)][n / 4]
  {
    seq(64, n requires 0 <= n < 64 => s[DataDevice(n)][n / 4])
  }

  ghost predicate DecodedTo(s: Stripes, buf: Buffer, n: nat) {
    n <= 64 && forall m :: 0 <= m < n ==> buf[m] == s[DataDevice(m)][m / 4]
  }

  /** Copying the word of the next non-parity device extends the decoded part by one word. */
  lemma DecodeStep(s: Stripes, buf: Buffer, k: nat, d: nat, n: nat)
    requires k < STRIPES && d < 5 && d != ParityAt(k) && n == 4 * k + (if d < ParityAt(k) then d else d - 1)
    requires DecodedTo(s, buf, n)
    ensures DecodedTo(s, buf[n := s[d][k]], n + 1)
  {
    assert DataDevice(n) == d;
  }

  /** XOR of the stripe-k words of devices 0..n-1, leaving out device `skip`. */
  function XorOf(s: Stripes, skip: nat, k: nat, n: nat): Word
    requires k < STRIPES && n <= 5
  {
    if n == 0 then ZERO
    else if n - 1 == skip then XorOf(s, skip, k, n - 1)
    else Xor(XorOf(s, skip, k, n - 1), s[n - 1][k])
  }

  const NONE: nat := 255

  predicate Consistent(s: Stripes) {
    forall k :: 0 <= k < STRIPES ==> XorOf(s, NONE, k, 5) == ZERO
  }

  function Recovered(s: Stripes, failure: nat): Stripes
    requires failure < 7
  {
    s[failure := seq(STRIPES, k requires 0 <= k < STRIPES => XorOf(s, failure, k, 5))]
  }

  function Erased(s: Stripes, d: nat): Stripes
    requires d < 7
  {
    s[d := seq(STRIPES, _ => ALL_ONES)]
  }

  /** The whole stripe is the others XORed with the one left out. */
  lemma {:induction false} PutBack(s: Stripes, f: nat, k: nat, n: nat)
    requires k < STRIPES && f < n <= 5
    ensures XorOf(s, NONE, k, n) == Xor(XorOf(s, f, k, n), s[f][k])
  {
    if f == n - 1 {
      SkipNothing(s, f, k, n - 1);
    } else {
      PutBack(s, f, k, n - 1);
      XorSwap(XorOf(s, f, k, n - 1), s[f][k], s[n - 1][k]);
    }
  }

  lemma {:induction false} SkipNothing(s: Stripes, f: nat, k: nat, n: nat)
    requires k < STRIPES && n <= f && n <= 5
    ensures XorOf(s, f, k, n) == XorOf(s, NONE, k, n)
  {
    if n > 0 {
      SkipNothing(s, f, k, n - 1);
    }
  }

  lemma {:induction false} SameXor(s: Stripes, t: Stripes, f: nat, k: nat, n: nat)
    requires k < STRIPES && n <= 5 && forall d :: 0 <= d < n && d != f ==> s[d][k] == t[d][k]
    ensures XorOf(s, f, k, n) == XorOf(t, f, k, n)
  {
    if n > 0 {
      SameXor(s, t, f, k, n - 1);
    }
  }

  /** The XOR of the first j data words of stripe k. */
  function DataXor(buf: Buffer, k: nat, j: nat): Word
    requires k < STRIPES && j <= 4
  {
    if j == 0 then ZERO else Xor(DataXor(buf, k, j - 1), buf[4 * k + j - 1])
  }

  lemma DataXorIsParity(buf: Buffer, k: nat)
    requires k < STRIPES
    ensures DataXor(buf, k, 4) == Parity(buf, k)
  {
    ZeroXor(buf[4 * k]);
    assert DataXor(buf, k, 1) == buf[4 * k];
    assert DataXor(buf, k, 3) == Xor(DataXor(buf, k, 2), buf[4 * k + 2]);
  }

  lemma {:induction false} DataXorOfDevices(s: Stripes, buf: Buffer, k: nat, n: nat)
    requires k < STRIPES && n <= 5 && forall d :: 0 <= d < n && d != ParityAt(k) ==> s[d][k] == EncodedWord(buf, d, k)
    ensures XorOf(s, ParityAt(k), k, n) == DataXor(buf, k, if n <= ParityAt(k) then n else n - 1)
  {
    if n > 0 {
      DataXorOfDevices(s, buf, k, n - 1);
    }
  }

  /** Every stripe XORs to zero after encoding. */
  lemma EncodedIsConsistent(s: Stripes, buf: Buffer)
    requires Encodes(s, buf)
    ensures Consistent(s)
  {
    forall k | 0 <= k < STRIPES ensures XorOf(s, NONE, k, 5) == ZERO {
      var p := ParityAt(k);
      forall d | 0 <= d < 5 ensures s[d][k] == EncodedWord(buf, d, k) {
        assert Holds(s, buf, d);
      }
      DataXorOfDevices(s, buf, k, 5);
      DataXorIsParity(buf, k);
      PutBack(s, p, k, 5);
      XorIsZero(XorOf(s, p, k, 5), s[p][k]);
    }
  }

  lemma DecodeInvertsEncode(s: Stripes, buf: Buffer)
    requires Encodes(s, buf)
    ensures Decoded(s) == buf
  {
    forall n | 0 <= n < 64 ensures Decoded(s)[n] == buf[n] {
      assert Holds(s, buf, DataDevice(n));
    }
  }

  /** A parity-consistent array is the encoding of what it decodes to, and nothing else is. */
  lemma ConsistentIsEncoded(s: Stripes)
    ensures Consistent(s) <==> Encodes(s, Decoded(s))
  {
    if Encodes(s, Decoded(s)) {
      EncodedIsConsistent(s, Decoded(s));
    }
    if Consistent(s) {
      forall d, k | 0 <= d < 5 && 0 <= k < STRIPES ensures s[d][k] == EncodedWord(Decoded(s), d, k) {
        StripeIsEncoded(s, k, d);
      }
    }
  }

  lemma DataIsEncoded(s: Stripes, k: nat, d: nat)
    requires k < STRIPES && d < 5 && d != ParityAt(k)
    ensures s[d][k] == EncodedWord(Decoded(s), d, k)
  {
    var n := 4 * k + (if d < ParityAt(k) then d else d - 1);
    assert DataDevice(n) == d && n / 4 == k;
  }

  lemma StripeIsEncoded(s: Stripes, k: nat, d: nat)
    requires k < STRIPES && d < 5 && XorOf(s, NONE, k, 5) == ZERO
    ensures s[d][k] == EncodedWord(Decoded(s), d, k)
  {
    hide EncodedWord, DataDevice;
    var p, buf := ParityAt(k), Decoded(s);
    forall e | 0 <= e < 5 && e != p ensures s[e][k] == EncodedWord(buf, e, k) {
      DataIsEncoded(s, k, e);
    }
    DataXorOfDevices(s, buf, k, 5);
    DataXorIsParity(buf, k);
    PutBack(s, p, k, 5);
    XorIsZero(XorOf(s, p, k, 5), s[p][k]);
    ParityWord(buf, k);
  }

  lemma ParityWord(buf: Buffer, k: nat)
    requires k < STRIPES
    ensures EncodedWord(buf, ParityAt(k), k) == Parity(buf, k)
  {
  }

  /** Four good devices determine the fifth. */
  lemma RecoverRestores(s: Stripes, buf: Buffer, f: nat)
    requires f < 5 && forall d :: 0 <= d < 5 && d != f ==> Holds(s, buf, d)
    ensures Encodes(Recovered(s, f), buf)
  {
    var good := s[f := seq(STRIPES, k requires 0 <= k < STRIPES => EncodedWord(buf, f, k))];
    assert Encodes(good, buf) by {
      forall d | 0 <= d < 5 ensures Holds(good, buf, d) {
        assert d != f ==> Holds(s, buf, d);
      }
    }
    EncodedIsConsistent(good, buf);
    RecoverConsistent(good, f);
    forall k | 0 <= k < STRIPES ensures XorOf(s, f, k, 5) == XorOf(good, f, k, 5) {
      SameXor(s, good, f, k, 5);
    }
    assert Recovered(s, f)[f] == Recovered(good, f)[f];
    assert Recovered(s, f) == Recovered(good, f);
  }

  /** Encode, damage one device in any way, recover it, decode: the buffer comes back. */
  lemma SurvivesOneFailure(s: Stripes, buf: Buffer, f: nat, damage: seq<Word>)
    requires Encodes(s, buf) && f < 5 && |damage| == STRIPES
    ensures Decoded(Recovered(s[f := damage], f)) == buf
  {
    var t := s[f := damage];
    assert forall d :: 0 <= d < 5 && d != f ==> Holds(s, buf, d) && Holds(t, buf, d);
    RecoverRestores(t, buf, f);
    DecodeInvertsEncode(Recovered(t, f), buf);
  }

  /** Recovering any device of a consistent array changes nothing. */
  lemma RecoverConsistent(s: Stripes, f: nat)
    requires Consistent(s) && f < 5
    ensures Recovered(s, f) == s
  {
    forall k | 0 <= k < STRIPES ensures XorOf(s, f, k, 5) == s[f][k] {
      PutBack(s, f, k, 5);
      XorIsZero(XorOf(s, f, k, 5), s[f][k]);
    }
    assert Recovered(s, f)[f] == s[f];
  }
}
