/** The RAID-5 array as a state machine: write, read, erase a device, recover a device. */
module Raid5Runs {
  import opened Words
  import opened Raid5Spec

  /** Stripe contents and the failed device (255: none). */
  datatype Array = Array(s: Stripes, diskFail: nat) {
    predicate Valid() { diskFail < 7 || diskFail == 255 }
  }

  datatype Op = Write(buf: Buffer) | Read | Erase(d: nat) | Recover(d: nat) {
    predicate Valid() { (Erase? || Recover?) ==> d < 7 }
  }

  function Encode(s: Stripes, buf: Buffer): (t: Stripes)
    ensures Encodes(t, buf) && t[5] == s[5] && t[6] == s[6]
  {
    var row := d requires 0 <= d < 5 => seq(STRIPES, k requires 0 <= k < STRIPES => EncodedWord(buf, d, k));
    [row(0), row(1), row(2), row(3), row(4), s[5], s[6]]
  }

  lemma EncodeUnique(s: Stripes, buf: Buffer, t: Stripes)
    requires forall d, m :: 0 <= d < 7 && 0 <= m < STRIPES ==>
      t[d][m] == if d < 5 then EncodedWord(buf, d, m) else s[d][m]
    ensures t == Encode(s, buf)
  {
    forall d | 0 <= d < 7 ensures t[d] == Encode(s, buf)[d] {
      assert d < 5 ==> Holds(Encode(s, buf), buf, d);
    }
  }

  /** Encoding the same buffer again changes nothing. */
  lemma EncodeAgain(s: Stripes, buf: Buffer)
    ensures Encode(Encode(s, buf), buf) == Encode(s, buf)
  {
    forall d, m | 0 <= d < 7 && 0 <= m < STRIPES
      ensures Encode(s, buf)[d][m] == if d < 5 then EncodedWord(buf, d, m) else Encode(s, buf)[d][m]
    {
      assert d < 5 ==> Holds(Encode(s, buf), buf, d);
    }
    EncodeUnique(Encode(s, buf), buf, Encode(s, buf));
  }

  /** t is s with the first k stripes of device f rebuilt. */
  ghost predicate RecoveredUpTo(s: Stripes, f: nat, t: Stripes, k: nat) {
    forall d, m {:trigger t[d][m]} :: 0 <= d < 7 && 0 <= m < STRIPES ==>
      t[d][m] == if d == f && m < k then XorOf(s, f, m, 5) else s[d][m]
  }

  lemma RecoverStep(s: Stripes, f: nat, t: Stripes, k: nat)
    requires f < 7 && k < STRIPES && RecoveredUpTo(s, f, t, k)
    ensures RecoveredUpTo(s, f, WithWord(t, f, k, XorOf(s, f, k, 5)), k + 1)
  {
  }

  lemma RecoveredUnique(s: Stripes, f: nat, t: Stripes)
    requires f < 7 && RecoveredUpTo(s, f, t, STRIPES)
    ensures t == Recovered(s, f)
  {
    forall d | 0 <= d < 7 ensures t[d] == Recovered(s, f)[d] {
      forall m | 0 <= m < STRIPES ensures t[d][m] == Recovered(s, f)[d][m] { }
    }
  }

  /** Array reads and writes first rebuild the failed device. */
  function Healed(a: Array): (r: Array)
    requires a.Valid()
    ensures r.diskFail == 255
  {
    if a.diskFail != 255 then Array(Recovered(a.s, a.diskFail), 255) else a
  }

  function Do(a: Array, op: Op): (r: Array)
    requires a.Valid() && op.Valid()
    ensures r.Valid()
  {
    match op
    case Write(buf) => Healed(a).(s := Encode(Healed(a).s, buf))
    case Read => Healed(a)
    case Erase(d) => Array(Erased(a.s, d), d)
    case Recover(d) => Array(Recovered(a.s, d), 255)
  }

  function ReadBack(a: Array): Buffer
    requires a.Valid()
  {
    Decoded(Do(a, Read).s)
  }

  // ----- runs ----------------------------------------------------------------------------------------

  /** Erase and recover are safe when no array device is down, or when they hit the one that is. */
  predicate Guarded(a: Array, op: Op) {
    (op.Erase? || op.Recover?) ==> a.diskFail >= 5 || a.diskFail == op.d
  }

  ghost predicate GuardedRun(a: Array, ops: seq<Op>)
    requires a.Valid()
    decreases |ops|
  {
    ops != [] ==> ops[0].Valid() && Guarded(a, ops[0]) && GuardedRun(Do(a, ops[0]), ops[1..])
  }

  /** What the reads of a run return. */
  ghost function Outputs(a: Array, ops: seq<Op>): seq<Buffer>
    requires a.Valid() && forall op :: op in ops ==> op.Valid()
    decreases |ops|
  {
    if ops == [] then []
    else (if ops[0].Read? then [ReadBack(a)] else []) + Outputs(Do(a, ops[0]), ops[1..])
  }

  /** What a plain 512-byte store holding `last` would return. */
  function Expected(last: Buffer, ops: seq<Op>): seq<Buffer>
    decreases |ops|
  {
    if ops == [] then []
    else if ops[0].Write? then Expected(ops[0].buf, ops[1..])
    else (if ops[0].Read? then [last] else []) + Expected(last, ops[1..])
  }

  /** The stripes encode `last`, except that a failed array device is blank. */
  ghost predicate Inv(a: Array, last: Buffer) {
    && a.Valid()
    && (a.diskFail >= 5 ==> Encodes(a.s, last))
    && (a.diskFail < 5 ==>
          && (forall d :: 0 <= d < 5 && d != a.diskFail ==> Holds(a.s, last, d))
          && a.s[a.diskFail] == seq(STRIPES, _ => ALL_ONES))
  }

  lemma RecoverOutside(s: Stripes, buf: Buffer, d: nat)
    requires Encodes(s, buf) && d < 7
    ensures Encodes(Recovered(s, d), buf)
  {
    if d < 5 {
      EncodedIsConsistent(s, buf);
      RecoverConsistent(s, d);
    } else {
      forall e | 0 <= e < 5 ensures Holds(Recovered(s, d), buf, e) {
        assert Holds(s, buf, e);
      }
    }
  }

  lemma HealedHolds(a: Array, last: Buffer)
    requires Inv(a, last)
    ensures Encodes(Healed(a).s, last)
  {
    if a.diskFail < 5 {
      RecoverRestores(a.s, last, a.diskFail);
    } else if a.diskFail != 255 {
      RecoverOutside(a.s, last, a.diskFail);
    }
  }

  lemma StepKeepsInv(a: Array, last: Buffer, op: Op)
    requires Inv(a, last) && op.Valid() && Guarded(a, op)
    ensures Inv(Do(a, op), if op.Write? then op.buf else last)
    ensures op.Read? ==> ReadBack(a) == last
  {
    HealedHolds(a, last);
    match op
    case Write(buf) =>
    case Read => DecodeInvertsEncode(Healed(a).s, last);
    case Erase(d) =>
      forall e | 0 <= e < 5 && e != d ensures Holds(Do(a, op).s, last, e) {
        assert Holds(a.s, last, e);
      }
    case Recover(d) =>
      if a.diskFail < 5 {
        assert Healed(a) == Do(a, op);
      } else {
        RecoverOutside(a.s, last, d);
      }
  }

  lemma WriteHolds(a: Array, buf: Buffer)
    requires a.Valid()
    ensures Inv(Do(a, Write(buf)), buf) && Do(a, Write(buf)).diskFail == 255
  {
  }

  lemma {:induction false} RunReadsLastWrite(a: Array, last: Buffer, ops: seq<Op>)
    requires Inv(a, last) && GuardedRun(a, ops) && forall op :: op in ops ==> op.Valid()
    ensures Outputs(a, ops) == Expected(last, ops)
    decreases |ops|
  {
    if ops != [] {
      StepKeepsInv(a, last, ops[0]);
      RunReadsLastWrite(Do(a, ops[0]), if ops[0].Write? then ops[0].buf else last, ops[1..]);
    }
  }

  /** From any contents whatever, once the array has been written, every read of every guarded
      run returns the last buffer written. */
  lemma ArrayIsAStore(a: Array, first: Buffer, ops: seq<Op>)
    requires a.Valid() && GuardedRun(Do(a, Write(first)), ops) && forall op :: op in ops ==> op.Valid()
    ensures Outputs(Do(a, Write(first)), ops) == Expected(first, ops)
  {
    RunReadsLastWrite(Do(a, Write(first)), first, ops);
  }

  /** An inconsistent stripe shows when one of its data devices is recovered. */
  lemma InconsistencyShows(s: Stripes, k: nat) returns (d: nat)
    requires k < STRIPES && XorOf(s, NONE, k, 5) != ZERO
    ensures d == if ParityAt(k) == 0 then 1 else 0
    ensures ReadBack(Do(Array(s, 255), Recover(d))) != ReadBack(Array(s, 255))
  {
    d := if ParityAt(k) == 0 then 1 else 0;
    var n := 4 * k;
    assert DataDevice(n) == d;
    PutBack(s, d, k, 5);
    XorIsZero(XorOf(s, d, k, 5), s[d][k]);
    assert ReadBack(Do(Array(s, 255), Recover(d)))[n] == XorOf(s, d, k, 5);
    assert ReadBack(Array(s, 255))[n] == s[d][k];
  }

  /** Recovering a device of a healthy array never changes what it reads if and only if the stripes are consistent. */
  lemma RecoveryIsHarmless(s: Stripes)
    ensures Consistent(s) <==>
            forall d: nat :: d < 5 ==> ReadBack(Do(Array(s, 255), Recover(d))) == ReadBack(Array(s, 255))
  {
    if Consistent(s) {
      forall d: nat | d < 5 ensures ReadBack(Do(Array(s, 255), Recover(d))) == ReadBack(Array(s, 255)) {
        RecoverConsistent(s, d);
      }
    } else {
      var k :| 0 <= k < STRIPES && XorOf(s, NONE, k, 5) != ZERO;
      var d := InconsistencyShows(s, k);
    }
  }

  ghost predicate StoreRun(s: Stripes, ops: seq<Op>) {
    (forall op :: op in ops ==> op.Valid()) && GuardedRun(Array(s, 255), ops)
  }

  /** Without a first write, a healthy array is a store of what it decodes to, over every guarded run,
      if and only if its stripes are consistent. */
  lemma StoreFromTheStart(s: Stripes)
    ensures Consistent(s) <==>
            forall ops :: StoreRun(s, ops) ==> Outputs(Array(s, 255), ops) == Expected(Decoded(s), ops)
  {
    if Consistent(s) {
      ConsistentIsEncoded(s);
      forall ops | StoreRun(s, ops) ensures Outputs(Array(s, 255), ops) == Expected(Decoded(s), ops) {
        RunReadsLastWrite(Array(s, 255), Decoded(s), ops);
      }
    } else {
      var k :| 0 <= k < STRIPES && XorOf(s, NONE, k, 5) != ZERO;
      var d := InconsistencyShows(s, k);
      RecoverThenRead(s, d);
    }
  }

  lemma RecoverThenRead(s: Stripes, d: nat)
    requires d < 5
    ensures var ops := [Recover(d), Read];
      StoreRun(s, ops) && Outputs(Array(s, 255), ops) == [ReadBack(Do(Array(s, 255), Recover(d)))] &&
      Expected(Decoded(s), ops) == [ReadBack(Array(s, 255))]
  {
    var ops := [Recover(d), Read];
    var b := Do(Array(s, 255), Recover(d));
    assert ops[1..] == [Read] && ops[1..][1..] == [];
    assert Outputs(b, [Read]) == [ReadBack(b)] + Outputs(Do(b, Read), []);
    assert Expected(Decoded(s), [Read]) == [Decoded(s)] + Expected(Decoded(s), []);
  }

  /** The erased contents the driver starts from are not consistent, so the first write is needed. */
  lemma BlankArrayIsUnstable()
    ensures var blank := Array(seq(7, _ => seq(STRIPES, _ => ALL_ONES)), 255);
      !Consistent(blank.s) && ReadBack(Do(blank, Recover(0))) != ReadBack(blank)
  {
    var s: Stripes := seq(7, _ => seq(STRIPES, _ => ALL_ONES));
    ZeroXor(ALL_ONES);
    XorIsZero(ALL_ONES, ALL_ONES);
    assert XorOf(s, 0, 0, 2) == ALL_ONES by { assert XorOf(s, 0, 0, 1) == ZERO; }
    assert XorOf(s, 0, 0, 3) == ZERO;
    assert XorOf(s, 0, 0, 5) == ZERO;
    PutBack(s, 0, 0, 5);
    assert XorOf(s, NONE, 0, 5) == ALL_ONES;
    assert ALL_ONES[0] != ZERO[0];
    var d := InconsistencyShows(s, 0);
  }

  // ----- the guard is exact ------------------------------------------------------------------------------

  /** A second operation on another device leaves the first failure in place, and it shows. */
  lemma UnguardedLoses(a: Array, f: nat, op: Op)
    requires a.Valid() && f < 5 && (op.Erase? || op.Recover?) && op.Valid() && op.d != f
    ensures var zeros: Buffer := seq(64, _ => ZERO);
      ReadBack(Do(Do(Do(a, Write(zeros)), Erase(f)), op)) != zeros
  {
    var zeros: Buffer := seq(64, _ => ZERO);
    var b := Do(Do(Do(a, Write(zeros)), Erase(f)), op);
    assert Do(b, Read).s[f] == seq(STRIPES, _ => ALL_ONES);
    var n := if f < 4 then f else 7;
    assert DataDevice(n) == f;
    assert ReadBack(b)[n][0] == 0xFF && zeros[n][0] == 0;
  }

  // ----- buffer by buffer, in any state of a guarded run ----------------------------------------------------

  /** One wrong device makes the XOR wrong. */
  lemma {:induction false} OneDiffers(s: Stripes, t: Stripes, skip: nat, f: nat, k: nat, n: nat)
    requires k < STRIPES && f < n <= 5 && f != skip && forall d :: 0 <= d < n && d != f ==> s[d][k] == t[d][k]
    ensures XorOf(s, skip, k, n) == XorOf(t, skip, k, n) <==> s[f][k] == t[f][k]
  {
    if n - 1 == f {
      SameXor(s, t, skip, k, n - 1);
      XorCommutes(XorOf(s, skip, k, n - 1), s[f][k]);
      XorCommutes(XorOf(s, skip, k, n - 1), t[f][k]);
      XorCancels(s[f][k], t[f][k], XorOf(s, skip, k, n - 1));
    } else {
      OneDiffers(s, t, skip, f, k, n - 1);
      if n - 1 != skip {
        XorCancels(XorOf(s, skip, k, n - 1), XorOf(t, skip, k, n - 1), s[n - 1][k]);
      }
    }
  }

  /** Whether d is erased or recovered, the next read sees it rebuilt from the others. */
  lemma UnguardedRead(a: Array, op: Op)
    requires a.Valid() && (op.Erase? || op.Recover?) && op.Valid()
    ensures ReadBack(Do(a, op)) == Decoded(Recovered(a.s, op.d))
  {
    if op.Erase? {
      var d, t := op.d, Erased(a.s, op.d);
      forall k | 0 <= k < STRIPES ensures XorOf(t, d, k, 5) == XorOf(a.s, d, k, 5) {
        SameXor(t, a.s, d, k, 5);
      }
      assert Recovered(t, d)[d] == Recovered(a.s, d)[d];
      assert Recovered(t, d) == Recovered(a.s, d);
    }
  }

  /** While f is blank, rebuilding another device d gives the right word
      exactly when the word of f should be all ones. */
  lemma BlankShows(a: Array, last: Buffer, d: nat, k: nat)
    requires Inv(a, last) && a.diskFail < 5 && d < 5 && d != a.diskFail && k < STRIPES
    ensures XorOf(a.s, d, k, 5) == EncodedWord(last, d, k) <==> EncodedWord(last, a.diskFail, k) == ALL_ONES
  {
    hide EncodedWord;
    var f, t := a.diskFail, Encode(a.s, last);
    EncodedIsConsistent(t, last);
    RecoverConsistent(t, d);
    assert Holds(t, last, d) && Holds(t, last, f);
    assert XorOf(t, d, k, 5) == Recovered(t, d)[d][k] == EncodedWord(last, d, k);
    forall e | 0 <= e < 5 && e != f ensures a.s[e][k] == t[e][k] {
      assert Holds(a.s, last, e) && Holds(t, last, e);
    }
    OneDiffers(a.s, t, d, f, k, 5);
  }

  /** The read after an unguarded operation on d depends on stripe k's word of the blank f. */
  predicate Uses(f: nat, d: nat, k: nat) {
    d < 5 || ParityAt(k) != f
  }

  /** Word n as the read after the unguarded operation returns it. */
  lemma WordAfter(a: Array, last: Buffer, d: nat, n: nat)
    requires Inv(a, last) && a.diskFail < 5 && d < 7 && d != a.diskFail && n < 64
    ensures var f, k := a.diskFail, n / 4;
      Decoded(Recovered(a.s, d))[n] == last[n] <==>
      ((DataDevice(n) == f || DataDevice(n) == d) ==> EncodedWord(last, f, k) == ALL_ONES)
  {
    var e, k := DataDevice(n), n / 4;
    DataWord(last, n);
    if e == d {
      BlankShows(a, last, d, k);
    } else if e != a.diskFail {
      assert Holds(a.s, last, e);
    }
  }

  lemma DataWord(buf: Buffer, n: nat)
    requires n < 64
    ensures DataDevice(n) < 5 && EncodedWord(buf, DataDevice(n), n / 4) == buf[n]
  {
  }

  lemma DataAt(d: nat, k: nat) returns (n: nat)
    requires d < 5 && k < STRIPES && ParityAt(k) != d
    ensures n < 64 && n / 4 == k && DataDevice(n) == d
  {
    n := 4 * k + (if d < ParityAt(k) then d else d - 1);
  }

  /** In any state of a guarded run with device f failed, an unguarded erase or recover keeps the buffer readable
      exactly when every word of f that the read depends on should be all ones. */
  lemma HarmlessExactly(a: Array, last: Buffer, op: Op)
    requires Inv(a, last) && (op.Erase? || op.Recover?) && op.Valid() && !Guarded(a, op)
    ensures ReadBack(Do(a, op)) == last <==>
            forall k :: 0 <= k < STRIPES && Uses(a.diskFail, op.d, k) ==> EncodedWord(last, a.diskFail, k) == ALL_ONES
  {
    hide EncodedWord, DataDevice, ParityAt, Recovered, Inv;
    var f, d := a.diskFail, op.d;
    UnguardedRead(a, op);
    var r := Decoded(Recovered(a.s, d));
    if r == last {
      forall k | 0 <= k < STRIPES && Uses(f, d, k) ensures EncodedWord(last, f, k) == ALL_ONES {
        var n := DataAt(if ParityAt(k) != f then f else d, k);
        WordAfter(a, last, d, n);
      }
    }
    if forall k :: 0 <= k < STRIPES && Uses(f, d, k) ==> EncodedWord(last, f, k) == ALL_ONES {
      forall n | 0 <= n < 64 ensures r[n] == last[n] {
        WordAfter(a, last, d, n);
        UsedWord(f, d, n);
      }
    }
  }

  lemma UsedWord(f: nat, d: nat, n: nat)
    requires f < 5 && n < 64
    ensures DataDevice(n) == f || DataDevice(n) == d ==> Uses(f, d, n / 4)
  {
  }

  /** After a write and the erasure of f, one more erase or recover keeps every buffer readable
      exactly when f is no array device or the operation names f again. */
  lemma GuardIsExact(a: Array, f: nat, op: Op)
    requires a.Valid() && f < 7 && (op.Erase? || op.Recover?) && op.Valid()
    ensures (forall buf: Buffer :: ReadBack(Do(Do(Do(a, Write(buf)), Erase(f)), op)) == buf)
            <==> f >= 5 || op.d == f
  {
    if f >= 5 || op.d == f {
      forall buf: Buffer ensures ReadBack(Do(Do(Do(a, Write(buf)), Erase(f)), op)) == buf {
        var b := Do(a, Write(buf));
        StepKeepsInv(b, buf, Erase(f));
        StepKeepsInv(Do(b, Erase(f)), buf, op);
        StepKeepsInv(Do(Do(b, Erase(f)), op), buf, Read);
      }
    } else {
      UnguardedLoses(a, f, op);
    }
  }
}
