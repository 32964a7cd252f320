/** The RAID-5 driver's global arrays, changed in place. */
module Raid5 {
  import opened Devices
  import opened Words
  import opened Raid5Spec
  import opened Raid5Runs

  function BufWords(buf: seq<bv8>): Buffer
    requires |buf| == 512
  {
    seq(64, n requires 0 <= n < 64 => BufWord(buf, n))
  }

  lemma BufWordsInjective(a: seq<bv8>, b: seq<bv8>)
    requires |a| == |b| == 512 && BufWords(a) == BufWords(b)
    ensures a == b
  {
    forall i | 0 <= i < 512 ensures a[i] == b[i] {
      assert BufWords(a)[i / 8][i % 8] == a[i];
      assert BufWords(b)[i / 8][i % 8] == b[i];
    }
  }

  function LoadFour(buf: seq<bv8>, n: nat): (w: seq<Word>)
    requires |buf| == 512 && n + 4 <= 64
    ensures |w| == 4 && forall j :: 0 <= j < 4 ==> w[j] == BufWords(buf)[n + j]
  {
    [BufWord(buf, n), BufWord(buf, n + 1), BufWord(buf, n + 2), BufWord(buf, n + 3)]
  }

  /** The stripe area of all devices. */
  ghost function StripesOf(data: array2<bv8>): (s: Stripes)
    requires data.Length0 == 7 && data.Length1 >= 8 * STRIPES
    reads data
    ensures forall d, k :: 0 <= d < 7 && 0 <= k < STRIPES ==> s[d][k] == LoadWord(data, d, k)
  {
    seq(7, d requires 0 <= d < 7 && data.Length0 == 7 && data.Length1 >= 8 * STRIPES reads data =>
      seq(STRIPES, k requires 0 <= k < STRIPES && 0 <= d < 7 && data.Length0 == 7 && data.Length1 >= 8 * STRIPES
                     reads data =>
        LoadWord(data, d, k)))
  }

  class SsdArray {
    const data: array2<bv8>
    const writeBuffer: array<bv8>
    const readBuffer: array<bv8>
    var diskFail: nat

    ghost predicate Valid()
      reads this
    {
      && data.Length0 == MAX_SSD_DEV && data.Length1 == MAX_LBAS_PER_SSD * LBA_SIZE
      && writeBuffer.Length == 512 && readBuffer.Length == 512 && writeBuffer != readBuffer
      && (diskFail < 7 || diskFail == 255)
    }

    ghost function Contents(): Stripes
      requires Valid()
      reads this, data
    {
      StripesOf(data)
    }

    ghost function State(): Array
      requires Valid()
      reads this, data
    {
      Array(Contents(), diskFail)
    }

    /** Nothing outside the stripe area changes. */
    twostate predicate OutsideUnchanged()
      requires Valid() && old(Valid())
      reads this, data
    {
      forall d, b :: 0 <= d < 7 && 128 <= b < data.Length1 ==> data[d, b] == old(data[d, b])
    }

    /** cur_ssd[k] = w with cur_ssd at device d. */
    method Put(d: nat, k: nat, w: Word)
      requires Valid() && d < 7 && k < STRIPES
      modifies data
      ensures Contents() == WithWord(old(Contents()), d, k, w)
      ensures OutsideUnchanged()
    {
      StoreWord(data, d, k, w);
      ghost var before := old(Contents());
      forall e | 0 <= e < 7 ensures Contents()[e] == WithWord(before, d, k, w)[e] {
      }
    }

    /** Driver start: every device is erased and none is failed. */
    constructor ()
      ensures Valid() && fresh(data) && fresh(writeBuffer) && fresh(readBuffer)
      ensures State() == Array(seq(7, _ => seq(STRIPES, _ => ALL_ONES)), 255)
    {
      data := new bv8[MAX_SSD_DEV, MAX_LBAS_PER_SSD * LBA_SIZE];
      writeBuffer := new bv8[512];
      readBuffer := new bv8[512];
      diskFail := 255;
      new;
      for i := 0 to MAX_SSD_DEV
        invariant Valid() && diskFail == 255
        invariant forall d :: 0 <= d < i ==> Contents()[d] == seq(STRIPES, _ => ALL_ONES)
      {
        EraseDevice(i);
      }
      assert Contents() == seq(7, _ => seq(STRIPES, _ => ALL_ONES));
    }

    method ComputeRaid5()
      requires Valid()
      modifies data
      ensures Contents() == Encode(old(Contents()), BufWords(writeBuffer[..]))
      ensures OutsideUnchanged()
    {
      hide EncodedWord, BufWords, ParityAt;
      ghost var buf, before := BufWords(writeBuffer[..]), Contents();
      var p, curLoc := 4, 0;
      FirstParity();
      for k := 0 to 16
        invariant p == ParityAt(k) && curLoc == 4 * k
        invariant forall d, m :: 0 <= d < 7 && 0 <= m < STRIPES ==>
          Contents()[d][m] == if d < 5 && m < k then EncodedWord(buf, d, m) else before[d][m]
        invariant OutsideUnchanged()
      {
        ComputeStripe(k, p, curLoc);
        NextParity(k);
        curLoc := curLoc + 4;
        p := if p == 0 then 4 else p - 1;
      }
      EncodeUnique(before, buf, Contents());
    }

    /** The inner loop: data words in device order, the parity where i == p. */
    method StoreStripe(k: nat, p: nat, dataIp: seq<Word>, ghost buf: Buffer)
      requires Valid() && k < STRIPES && p == ParityAt(k)
      requires |dataIp| == 4 && forall j :: 0 <= j < 4 ==> dataIp[j] == buf[4 * k + j]
      modifies data
      ensures Contents() == StripeDone(old(Contents()), buf, k, 5)
      ensures OutsideUnchanged()
    {
      hide StripeDone, EncodedWord, ParityAt, WithWord, Parity, Xor;
      ghost var before := Contents();
      NothingDone(before, buf, k);
      WordsOfStripe(buf, k);
      var parityOut := Xor(Xor(Xor(dataIp[0], dataIp[1]), dataIp[2]), dataIp[3]);
      var j := 0;
      for i := 0 to 5
        invariant j == if i <= p then i else i - 1
        invariant Contents() == StripeDone(before, buf, k, i)
        invariant OutsideUnchanged()
      {
        NextDone(before, buf, k, i);
        if i != p {
          Put(i, k, dataIp[j]);
          j := j + 1;
        } else {
          Put(i, k, parityOut);
        }
      }
    }

    /** One turn of the stripe loop: four data words and their parity, rotated over five devices. */
    method ComputeStripe(k: nat, p: nat, curLoc: nat)
      requires Valid() && k < STRIPES && p == ParityAt(k) && curLoc == 4 * k
      modifies data
      ensures forall d, m :: 0 <= d < 7 && 0 <= m < STRIPES ==>
        Contents()[d][m] == if d < 5 && m == k then EncodedWord(BufWords(writeBuffer[..]), d, m)
                            else old(Contents())[d][m]
      ensures OutsideUnchanged()
    {
      ghost var buf, before := BufWords(writeBuffer[..]), Contents();
      var dataIp := LoadFour(writeBuffer[..], curLoc);
      StoreStripe(k, p, dataIp, buf);
      forall d, m | 0 <= d < 7 && 0 <= m < STRIPES
        ensures Contents()[d][m] == if d < 5 && m == k then EncodedWord(buf, d, m) else before[d][m]
      {
        StripeDoneAt(before, buf, k, 5, d, m);
      }
    }

    method DecodeRaid5()
      requires Valid()
      modifies readBuffer
      ensures BufWords(readBuffer[..]) == Decoded(Contents())
    {
      ghost var s := Contents();
      var p, j := 4, 0;
      for k := 0 to 16
        invariant p == ParityAt(k) && j == 4 * k
        invariant DecodedTo(s, BufWords(readBuffer[..]), j)
      {
        for i := 0 to 5
          invariant j == 4 * k + if i <= p then i else i - 1
          invariant DecodedTo(s, BufWords(readBuffer[..]), j)
        {
          if i != p {
            DecodeStep(s, BufWords(readBuffer[..]), k, i, j);
            SetReadWord(j, LoadWord(data, i, k));
            j := j + 1;
          }
        }
        p := if p == 0 then 4 else p - 1;
      }
    }

    /** read_loc[n] = w. */
    method SetReadWord(n: nat, w: Word)
      requires Valid() && n < 64
      modifies readBuffer
      ensures BufWords(readBuffer[..]) == BufWords(old(readBuffer[..]))[n := w]
    {
      forall i | 0 <= i < 8 {
        readBuffer[8 * n + i] := w[i];
      }
      ghost var before := old(readBuffer[..]);
      forall m | 0 <= m < 64 ensures BufWords(readBuffer[..])[m] == BufWords(before)[n := w][m] {
        forall i | 0 <= i < 8 ensures BufWord(readBuffer[..], m)[i] == BufWords(before)[n := w][m][i] { }
      }
    }

    method Raid5Recover(failure: nat)
      requires Valid() && failure < 7
      modifies data
      ensures Contents() == Recovered(old(Contents()), failure)
      ensures OutsideUnchanged()
    {
      ghost var before := Contents();
      for k := 0 to 16
        invariant RecoveredUpTo(before, failure, Contents(), k)
        invariant OutsideUnchanged()
      {
        var recover := ZERO;
        for i := 0 to 5
          invariant recover == XorOf(before, failure, k, i)
        {
          if i != failure {
            assert Contents()[i][k] == before[i][k];
            recover := Xor(recover, LoadWord(data, i, k));
          }
        }
        RecoverStep(before, failure, Contents(), k);
        Put(failure, k, recover);
      }
      RecoveredUnique(before, failure, Contents());
    }

    /** The erase loop: a four-byte store at every byte offset below 131072. */
    method EraseDevice(d: nat)
      requires Valid() && d < 7
      modifies data
      ensures Contents() == Erased(old(Contents()), d)
      ensures forall e, b :: 0 <= e < 7 && 0 <= b < data.Length1 ==>
        data[e, b] == if e == d && b < 131075 then 0xFF else old(data[e, b])
    {
      for j := 0 to (LBA_SIZE / 4) * MAX_LBAS_PER_SSD
        invariant forall e, b :: 0 <= e < 7 && 0 <= b < data.Length1 ==>
          data[e, b] == if e == d && j > 0 && b < j + 3 then 0xFF else old(data[e, b])
      {
        data[d, j], data[d, j + 1], data[d, j + 2], data[d, j + 3] := 0xFF, 0xFF, 0xFF, 0xFF;
      }
      ghost var before := old(Contents());
      forall e | 0 <= e < 7 ensures Contents()[e] == Erased(before, d)[e] {
        forall k | 0 <= k < STRIPES ensures Contents()[e][k] == Erased(before, d)[e][k] {
          forall i | 0 <= i < 8
            ensures LoadWord(data, e, k)[i] == (if e == d then ALL_ONES else old(LoadWord(data, e, k)))[i] { }
        }
      }
    }

    // ----- the array device (minor 7) and the ioctls -------------------------------------------

    method Heal()
      requires Valid()
      modifies this, data
      ensures Valid() && State() == Healed(old(State())) && OutsideUnchanged()
    {
      if diskFail != 255 {
        Raid5Recover(diskFail);
        diskFail := 255;
      }
    }

    method ArrayRead() returns (buf: seq<bv8>)
      requires Valid()
      modifies this, data, readBuffer
      ensures Valid() && State() == Do(old(State()), Read)
      ensures |buf| == 512 && BufWords(buf) == ReadBack(old(State()))
      ensures OutsideUnchanged()
    {
      Heal();
      DecodeRaid5();
      buf := readBuffer[..];
    }

    /** The loop over the 512 characters has no statement of its own left: it repeats the encoding. */
    method ArrayWrite(buf: seq<bv8>)
      requires Valid() && |buf| == 512
      modifies this, data, writeBuffer
      ensures Valid() && State() == Do(old(State()), Write(BufWords(buf)))
      ensures OutsideUnchanged()
    {
      Heal();
      ghost var before := Contents();
      forall i | 0 <= i < 512 {
        writeBuffer[i] := buf[i];
      }
      assert writeBuffer[..] == buf;
      for i := 0 to 512
        invariant Valid() && diskFail == 255 && writeBuffer[..] == buf
        invariant Contents() == if i == 0 then before else Encode(before, BufWords(buf))
        invariant OutsideUnchanged()
      {
        ComputeRaid5();
        EncodeAgain(before, BufWords(buf));
      }
    }

    method IoctlErase(d: nat)
      requires Valid() && d < 7
      modifies this, data
      ensures Valid() && State() == Do(old(State()), Erase(d))
      ensures forall e, b :: 0 <= e < 7 && 0 <= b < data.Length1 ==>
        data[e, b] == if e == d && b < 131075 then 0xFF else old(data[e, b])
    {
      EraseDevice(d);
      diskFail := d;
    }

    method IoctlRecover(d: nat)
      requires Valid() && d < 7
      modifies this, data
      ensures Valid() && State() == Do(old(State()), Recover(d)) && OutsideUnchanged()
    {
      Raid5Recover(d);
      diskFail := 255;
    }
  }

  // ----- sequences of calls --------------------------------------------------------------------

  /** A call on the array device or an ioctl on a member device, with its bytes. */
  datatype Call = WriteCall(buf: seq<bv8>) | ReadCall | EraseCall(d: nat) | RecoverCall(d: nat) {
    predicate Valid() {
      (WriteCall? ==> |buf| == 512) && (EraseCall? || RecoverCall? ==> d < 7)
    }

    /** The failure flag afterwards. */
    function Flag(): nat {
      if EraseCall? then d else 255
    }

    /** Erase and recover leave another failed array device alone. */
    predicate Guarded(diskFail: nat) {
      EraseCall? || RecoverCall? ==> diskFail >= 5 || diskFail == d
    }

    function AsOp(): (op: Op)
      requires Valid()
      ensures op.Valid()
    {
      match this
      case WriteCall(buf) => Write(BufWords(buf))
      case ReadCall => Read
      case EraseCall(d) => Erase(d)
      case RecoverCall(d) => Recover(d)
    }
  }

  predicate GuardedCalls(diskFail: nat, calls: seq<Call>)
    decreases |calls|
  {
    calls != [] ==> calls[0].Valid() && calls[0].Guarded(diskFail) && GuardedCalls(calls[0].Flag(), calls[1..])
  }

  /** What the reads return from a plain 512-byte store that holds `last`. */
  function StoreReads(last: seq<bv8>, calls: seq<Call>): seq<seq<bv8>>
    decreases |calls|
  {
    if calls == [] then []
    else if calls[0].WriteCall? then StoreReads(calls[0].buf, calls[1..])
    else (if calls[0].ReadCall? then [last] else []) + StoreReads(last, calls[1..])
  }

  /** One call; a read returns its bytes. */
  method Perform(a: SsdArray, call: Call, ghost last: seq<bv8>) returns (output: seq<seq<bv8>>)
    requires a.Valid() && call.Valid() && call.Guarded(a.diskFail) && |last| == 512
    requires Inv(a.State(), BufWords(last))
    modifies a, a.data, a.writeBuffer, a.readBuffer
    ensures a.Valid() && a.diskFail == call.Flag()
    ensures Inv(a.State(), BufWords(if call.WriteCall? then call.buf else last))
    ensures output == if call.ReadCall? then [last] else []
  {
    StepKeepsInv(a.State(), BufWords(last), call.AsOp());
    output := [];
    match call
    case WriteCall(buf) => a.ArrayWrite(buf);
    case ReadCall =>
      var bytes := a.ArrayRead();
      BufWordsInjective(bytes, last);
      output := [bytes];
    case EraseCall(d) => a.IoctlErase(d);
    case RecoverCall(d) => a.IoctlRecover(d);
  }

  lemma NextCall(diskFail: nat, last: seq<bv8>, calls: seq<Call>, i: nat)
    requires i < |calls| && GuardedCalls(diskFail, calls[i..])
    ensures calls[i].Valid() && calls[i].Guarded(diskFail) && GuardedCalls(calls[i].Flag(), calls[i + 1..])
    ensures StoreReads(last, calls[i..]) ==
            (if calls[i].ReadCall? then [last] else []) +
            StoreReads(if calls[i].WriteCall? then calls[i].buf else last, calls[i + 1..])
  {
    assert calls[i..][0] == calls[i] && calls[i..][1..] == calls[i + 1..];
  }

  lemma Associates(a: seq<seq<bv8>>, b: seq<seq<bv8>>, c: seq<seq<bv8>>)
    ensures a + (b + c) == a + b + c
  {
  }

  lemma NoCall(last: seq<bv8>, calls: seq<Call>)
    ensures StoreReads(last, calls[|calls|..]) == []
  {
  }

  /** From any contents, after one array write, the reads of every guarded sequence of calls
      return the last 512 bytes written. */
  method RunCalls(a: SsdArray, first: seq<bv8>, calls: seq<Call>) returns (outputs: seq<seq<bv8>>)
    requires a.Valid() && |first| == 512 && GuardedCalls(255, calls)
    modifies a, a.data, a.writeBuffer, a.readBuffer
    ensures outputs == StoreReads(first, calls)
  {
    hide Inv, GuardedCalls, StoreReads, Do, BufWords;
    assert calls[0..] == calls;
    WriteHolds(a.State(), BufWords(first));
    a.ArrayWrite(first);
    outputs := [];
    ghost var last := first;
    for i := 0 to |calls|
      invariant a.Valid() && |last| == 512 && Inv(a.State(), BufWords(last))
      invariant GuardedCalls(a.diskFail, calls[i..])
      invariant outputs + StoreReads(last, calls[i..]) == StoreReads(first, calls)
    {
      NextCall(a.diskFail, last, calls, i);
      var output := Perform(a, calls[i], last);
      Associates(outputs, output, StoreReads(if calls[i].WriteCall? then calls[i].buf else last, calls[i + 1..]));
      outputs := outputs + output;
      last := if calls[i].WriteCall? then calls[i].buf else last;
    }
    NoCall(last, calls);
  }
}
