/** The MD5 context: the renamed steps, streaming, and padding. */
module Md5 {
  import opened Blocks
  import S = Md5Spec

  type word = S.word

  const T_MASK: word := 0xFFFF_FFFF

  // ----- the bit counter ------------------------------------------------------------------------

  /** The two words that count the bits of n bytes. */
  predicate Counts(count0: nat, count1: nat, n: nat) {
    count0 == 8 * n % WRAP && count1 == 8 * n / WRAP % WRAP
  }

  /** The high part, the low part and the carry test of the update keep the count. */
  lemma CountCarries(count0: nat, count1: nat, n: nat, more: nat)
    requires Counts(count0, count1, n)
    ensures var nbits := 8 * more % WRAP;
      var c0, c1 := (count0 + nbits) % WRAP, (count1 + more / 0x2000_0000) % WRAP;
      Counts(c0, if c0 < nbits then (c1 + 1) % WRAP else c1, n + more)
  {
    var nbits, high := 8 * more % WRAP, more / 0x2000_0000;
    assert 8 * more == WRAP * high + nbits;
    Carry(8 * n, nbits, high);
    Wraps(8 * n / WRAP, high, if (8 * n + nbits) % WRAP < nbits then 1 else 0);
  }

  lemma Carry(x: nat, low: nat, high: nat)
    requires low < WRAP
    ensures (x % WRAP + low) % WRAP == (x + WRAP * high + low) % WRAP == (x + low) % WRAP
    ensures (x + WRAP * high + low) / WRAP == x / WRAP + high + (if (x + low) % WRAP < low then 1 else 0)
  {
    var q, r := x / WRAP, x % WRAP;
    if r + low < WRAP {
      Quotient(x + low, q, r + low);
      Quotient(x + WRAP * high + low, q + high, r + low);
    } else {
      Quotient(x + low, q + 1, r + low - WRAP);
      Quotient(x + WRAP * high + low, q + high + 1, r + low - WRAP);
    }
  }

  lemma Quotient(x: nat, q: nat, r: nat)
    requires x == WRAP * q + r && r < WRAP
    ensures x / WRAP == q && x % WRAP == r
  {
  }

  lemma Wraps(x: nat, y: nat, z: nat)
    ensures ((x % WRAP + y) % WRAP + z) % WRAP == (x + y + z) % WRAP
  {
    ModSum(x % WRAP + y, z);
    ModSum(x, y + z);
  }

  /** The bytes of the two words are the length field. */
  lemma LengthField(count0: nat, count1: nat, n: nat)
    requires Counts(count0, count1, n)
    ensures LittleEndian(count0, 4) + LittleEndian(count1, 4) == LittleEndian(8 * n, 8)
  {
    hide LittleEndian;
    LittleEndianHalves(8 * n);
    LittleEndianLow(8 * n);
    LittleEndianLow(8 * n / WRAP);
  }

  const PAD: seq<byte> := [0x80] + Zeros(63)

  class Context {
    var count0: nat
    var count1: nat
    const abcd: array<word>
    const buf: array<byte>
    /** The message bytes already processed. */
    ghost var done: seq<byte>

    ghost predicate Shape() {
      abcd.Length == 4 && buf.Length == 64
    }

    ghost predicate Chained()
      reads `done, abcd
    {
      Shape() && Whole(done, S.SIZE) && RegsOf(abcd[..]) == S.Chain(done)
    }

    ghost predicate Valid()
      reads this, abcd
    {
      Chained() && Counts(count0, count1, |done| + count0 / 8 % 64)
    }

    ghost function Message(): seq<byte>
      requires Valid()
      reads this, abcd, buf
    {
      done + buf[..count0 / 8 % 64]
    }

    /** md5_init. */
    constructor ()
      ensures Valid() && Message() == [] && fresh(abcd) && fresh(buf)
    {
      count0, count1, done := 0, 0, [];
      abcd := new word[4];
      buf := new byte[64];
      new;
      abcd[0], abcd[1], abcd[2], abcd[3] := 0x67452301, T_MASK ^ 0x10325476, T_MASK ^ 0x67452301, 0x10325476;
      StartsAt(abcd[..]);
    }

    /** One SET in step t: only a is stored, and takes over the role of b. */
    method Set(a: word, b: word, c: word, d: word, k: nat, s: word, ti: word, t: nat, data: seq<byte>, ghost v: S.Regs)
      returns (a': word)
      requires |data| == S.SIZE && t < 64 && k == S.Index(t) && s == S.Amount(t) && ti == S.T(t)
      requires S.Regs(a, b, c, d) == S.Steps(v, data, t)
      ensures S.Regs(d, a', b, c) == S.Steps(v, data, t + 1)
    {
      hide S.Add, S.Rotl, S.Mix, S.Index, S.Amount, S.Word, S.T;
      var temp := S.Add(S.Add(S.Add(a, S.Mix(t, b, c, d)), S.Word(data, k)), ti);
      AddCommutes(b, S.Rotl(temp, s));
      a' := S.Add(S.Rotl(temp, s), b);
    }

    /** The 16 operations of round 1. */
    method Round1(a0: word, b0: word, c0: word, d0: word, data: seq<byte>, ghost v: S.Regs)
      returns (a: word, b: word, c: word, d: word)
      requires |data| == S.SIZE && S.Regs(a0, b0, c0, d0) == S.Steps(v, data, 0)
      ensures S.Regs(a, b, c, d) == S.Steps(v, data, 16)
    {
      hide S.Steps, S.T;
      Constants1();
      a, b, c, d := a0, b0, c0, d0;
      a := Set(a, b, c, d, 0, 7, T_MASK ^ 0x28955b87, 0, data, v);
      d := Set(d, a, b, c, 1, 12, T_MASK ^ 0x173848a9, 1, data, v);
      c := Set(c, d, a, b, 2, 17, 0x242070db, 2, data, v);
      b := Set(b, c, d, a, 3, 22, T_MASK ^ 0x3e423111, 3, data, v);
      a := Set(a, b, c, d, 4, 7, T_MASK ^ 0x0a83f050, 4, data, v);
      d := Set(d, a, b, c, 5, 12, 0x4787c62a, 5, data, v);
      c := Set(c, d, a, b, 6, 17, T_MASK ^ 0x57cfb9ec, 6, data, v);
      b := Set(b, c, d, a, 7, 22, T_MASK ^ 0x02b96afe, 7, data, v);
      a := Set(a, b, c, d, 8, 7, 0x698098d8, 8, data, v);
      d := Set(d, a, b, c, 9, 12, T_MASK ^ 0x74bb0850, 9, data, v);
      c := Set(c, d, a, b, 10, 17, T_MASK ^ 0x0000a44e, 10, data, v);
      b := Set(b, c, d, a, 11, 22, T_MASK ^ 0x76a32841, 11, data, v);
      a := Set(a, b, c, d, 12, 7, 0x6b901122, 12, data, v);
      d := Set(d, a, b, c, 13, 12, T_MASK ^ 0x02678e6c, 13, data, v);
      c := Set(c, d, a, b, 14, 17, T_MASK ^ 0x5986bc71, 14, data, v);
      b := Set(b, c, d, a, 15, 22, 0x49b40821, 15, data, v);
    }

    /** The 16 operations of round 2. */
    method Round2(a0: word, b0: word, c0: word, d0: word, data: seq<byte>, ghost v: S.Regs)
      returns (a: word, b: word, c: word, d: word)
      requires |data| == S.SIZE && S.Regs(a0, b0, c0, d0) == S.Steps(v, data, 16)
      ensures S.Regs(a, b, c, d) == S.Steps(v, data, 32)
    {
      hide S.Steps, S.T;
      Constants2();
      a, b, c, d := a0, b0, c0, d0;
      a := Set(a, b, c, d, 1, 5, T_MASK ^ 0x09e1da9d, 16, data, v);
      d := Set(d, a, b, c, 6, 9, T_MASK ^ 0x3fbf4cbf, 17, data, v);
      c := Set(c, d, a, b, 11, 14, 0x265e5a51, 18, data, v);
      b := Set(b, c, d, a, 0, 20, T_MASK ^ 0x16493855, 19, data, v);
      a := Set(a, b, c, d, 5, 5, T_MASK ^ 0x29d0efa2, 20, data, v);
      d := Set(d, a, b, c, 10, 9, 0x02441453, 21, data, v);
      c := Set(c, d, a, b, 15, 14, T_MASK ^ 0x275e197e, 22, data, v);
      b := Set(b, c, d, a, 4, 20, T_MASK ^ 0x182c0437, 23, data, v);
      a := Set(a, b, c, d, 9, 5, 0x21e1cde6, 24, data, v);
      d := Set(d, a, b, c, 14, 9, T_MASK ^ 0x3cc8f829, 25, data, v);
      c := Set(c, d, a, b, 3, 14, T_MASK ^ 0x0b2af278, 26, data, v);
      b := Set(b, c, d, a, 8, 20, 0x455a14ed, 27, data, v);
      a := Set(a, b, c, d, 13, 5, T_MASK ^ 0x561c16fa, 28, data, v);
      d := Set(d, a, b, c, 2, 9, T_MASK ^ 0x03105c07, 29, data, v);
      c := Set(c, d, a, b, 7, 14, 0x676f02d9, 30, data, v);
      b := Set(b, c, d, a, 12, 20, T_MASK ^ 0x72d5b375, 31, data, v);
    }

    /** The 16 operations of round 3. */
    method Round3(a0: word, b0: word, c0: word, d0: word, data: seq<byte>, ghost v: S.Regs)
      returns (a: word, b: word, c: word, d: word)
      requires |data| == S.SIZE && S.Regs(a0, b0, c0, d0) == S.Steps(v, data, 32)
      ensures S.Regs(a, b, c, d) == S.Steps(v, data, 48)
    {
      hide S.Steps, S.T;
      Constants3();
      a, b, c, d := a0, b0, c0, d0;
      a := Set(a, b, c, d, 5, 4, T_MASK ^ 0x0005c6bd, 32, data, v);
      d := Set(d, a, b, c, 8, 11, T_MASK ^ 0x788e097e, 33, data, v);
      c := Set(c, d, a, b, 11, 16, 0x6d9d6122, 34, data, v);
      b := Set(b, c, d, a, 14, 23, T_MASK ^ 0x021ac7f3, 35, data, v);
      a := Set(a, b, c, d, 1, 4, T_MASK ^ 0x5b4115bb, 36, data, v);
      d := Set(d, a, b, c, 4, 11, 0x4bdecfa9, 37, data, v);
      c := Set(c, d, a, b, 7, 16, T_MASK ^ 0x0944b49f, 38, data, v);
      b := Set(b, c, d, a, 10, 23, T_MASK ^ 0x4140438f, 39, data, v);
      a := Set(a, b, c, d, 13, 4, 0x289b7ec6, 40, data, v);
      d := Set(d, a, b, c, 0, 11, T_MASK ^ 0x155ed805, 41, data, v);
      c := Set(c, d, a, b, 3, 16, T_MASK ^ 0x2b10cf7a, 42, data, v);
      b := Set(b, c, d, a, 6, 23, 0x04881d05, 43, data, v);
      a := Set(a, b, c, d, 9, 4, T_MASK ^ 0x262b2fc6, 44, data, v);
      d := Set(d, a, b, c, 12, 11, T_MASK ^ 0x1924661a, 45, data, v);
      c := Set(c, d, a, b, 15, 16, 0x1fa27cf8, 46, data, v);
      b := Set(b, c, d, a, 2, 23, T_MASK ^ 0x3b53a99a, 47, data, v);
    }

    /** The 16 operations of round 4. */
    method Round4(a0: word, b0: word, c0: word, d0: word, data: seq<byte>, ghost v: S.Regs)
      returns (a: word, b: word, c: word, d: word)
      requires |data| == S.SIZE && S.Regs(a0, b0, c0, d0) == S.Steps(v, data, 48)
      ensures S.Regs(a, b, c, d) == S.Steps(v, data, 64)
    {
      hide S.Steps, S.T;
      Constants4();
      a, b, c, d := a0, b0, c0, d0;
      a := Set(a, b, c, d, 0, 6, T_MASK ^ 0x0bd6ddbb, 48, data, v);
      d := Set(d, a, b, c, 7, 10, 0x432aff97, 49, data, v);
      c := Set(c, d, a, b, 14, 15, T_MASK ^ 0x546bdc58, 50, data, v);
      b := Set(b, c, d, a, 5, 21, T_MASK ^ 0x036c5fc6, 51, data, v);
      a := Set(a, b, c, d, 12, 6, 0x655b59c3, 52, data, v);
      d := Set(d, a, b, c, 3, 10, T_MASK ^ 0x70f3336d, 53, data, v);
      c := Set(c, d, a, b, 10, 15, T_MASK ^ 0x00100b82, 54, data, v);
      b := Set(b, c, d, a, 1, 21, T_MASK ^ 0x7a7ba22e, 55, data, v);
      a := Set(a, b, c, d, 8, 6, 0x6fa87e4f, 56, data, v);
      d := Set(d, a, b, c, 15, 10, T_MASK ^ 0x01d3191f, 57, data, v);
      c := Set(c, d, a, b, 6, 15, T_MASK ^ 0x5cfebceb, 58, data, v);
      b := Set(b, c, d, a, 13, 21, 0x4e0811a1, 59, data, v);
      a := Set(a, b, c, d, 4, 6, T_MASK ^ 0x08ac817d, 60, data, v);
      d := Set(d, a, b, c, 11, 10, T_MASK ^ 0x42c50dca, 61, data, v);
      c := Set(c, d, a, b, 2, 15, 0x2ad7d2bb, 62, data, v);
      b := Set(b, c, d, a, 9, 21, T_MASK ^ 0x14792c6e, 63, data, v);
    }

    /** md5_process: 64 renamed steps, every four of which bring each role back to its own register. */
    method Process(data: seq<byte>)
      requires Shape() && |data| == S.SIZE
      modifies abcd
      ensures RegsOf(abcd[..]) == S.Compress(old(RegsOf(abcd[..])), data)
    {
      hide S.Add, S.Steps;
      ghost var v := RegsOf(abcd[..]);
      NoSteps(v, data);
      var a, b, c, d := abcd[0], abcd[1], abcd[2], abcd[3];
      a, b, c, d := Round1(a, b, c, d, data, v);
      a, b, c, d := Round2(a, b, c, d, data, v);
      a, b, c, d := Round3(a, b, c, d, data, v);
      a, b, c, d := Round4(a, b, c, d, data, v);
      abcd[0] := S.Add(abcd[0], a);
      abcd[1] := S.Add(abcd[1], b);
      abcd[2] := S.Add(abcd[2], c);
      abcd[3] := S.Add(abcd[3], d);
    }

    method Take(data: seq<byte>)
      requires Chained() && |data| == S.SIZE
      modifies abcd, `done
      ensures Chained() && done == old(done) + data
    {
      hide S.Compress, RegsOf;
      FoldOne(S.Compress, S.SIZE, S.Chain(done), data);
      FoldAppend(S.Compress, S.SIZE, S.START, done, data);
      WholeAppend(done, data, S.SIZE);
      Process(data);
      done := done + data;
    }

    /** memcpy into the buffer. */
    method CopyIn(at: nat, bytes: seq<byte>)
      requires at + |bytes| <= buf.Length
      modifies buf
      ensures buf[..at + |bytes|] == old(buf[..at]) + bytes
    {
      for i := 0 to |bytes|
        invariant buf[..at] == old(buf[..at])
        invariant forall j :: 0 <= j < i ==> buf[at + j] == bytes[j]
      {
        buf[at + i] := bytes[i];
      }
    }

    /** The rest of md5_append, after the counter; `left` is the new offset. */
    method Absorb(data: seq<byte>, offset: nat) returns (ghost left: nat)
      requires Chained() && offset < 64 && OneCallFits(offset, |data|)
      modifies abcd, buf, `done
      ensures Chained() && left < 64 && done + buf[..left] == old(done + buf[..offset]) + data
    {
      hide S.Chain, RegsOf, Whole;
      ghost var goal := done + buf[..offset] + data;
      var p := data;
      if offset > 0 {
        var sum: int32 := offset + |data|;
        var copy := if sum > 64 then 64 - offset else |data|;
        CopyIn(offset, data[..copy]);
        Regroup(done, old(buf[..offset]), data, copy);
        if offset + copy < 64 {
          assert data[copy..] == [];
          left := offset + copy;
          return;
        }
        Take(buf[..]);
        p := data[copy..];
      }
      while |p| >= 64
        invariant Chained() && done + p == goal
        decreases |p|
      {
        assert done + p == done + p[..64] + p[64..];
        Take(p[..64]);
        p := p[64..];
      }
      if |p| > 0 {
        CopyIn(0, p);
      }
      left := |p|;
      assert buf[..left] == p;
    }

    /** md5_append, while its int arithmetic does not overflow. */
    method Append(data: seq<byte>, nbytes: int32)
      requires Valid() && nbytes <= |data| && (nbytes > 0 ==> OneCallFits(count0 / 8 % 64, nbytes))
      modifies `count0, `count1, `done, abcd, buf
      ensures Valid() && Message() == old(Message()) + Taken(data, nbytes)
    {
      hide S.Chain, RegsOf;
      var offset := count0 / 8 % 64;
      if nbytes <= 0 {
        return;
      }
      var nbits := 8 * nbytes % WRAP;
      ghost var n := |done| + offset;
      CountCarries(count0, count1, n, nbytes);
      count1 := (count1 + nbytes / 0x2000_0000) % WRAP;
      count0 := (count0 + nbits) % WRAP;
      if count0 < nbits {
        count1 := (count1 + 1) % WRAP;
      }
      ghost var left := Absorb(data[..nbytes], offset);
      SameRest(done, left, n + nbytes);
    }

    method Store() returns (digest: seq<byte>)
      requires Chained()
      ensures digest == S.Output(S.Chain(done))
    {
      hide S.Chain, S.Unpack;
      digest := S.Unpack(abcd[0]) + S.Unpack(abcd[1]) + S.Unpack(abcd[2]) + S.Unpack(abcd[3]);
    }

    /** md5_finish. */
    method Finish() returns (digest: seq<byte>)
      requires Valid()
      modifies `count0, `count1, `done, abcd, buf
      ensures digest == S.Digest(old(Message()))
    {
      hide S.Chain, RegsOf, Whole, LittleEndian;
      ghost var message := Message();
      var data := LittleEndian(count0, 4) + LittleEndian(count1, 4);
      LengthField(count0, count1, |message|);
      var padn := (WRAP + 55 - count0 / 8) % 64 + 1;
      PaddingFits(done, buf[..count0 / 8 % 64], count0 / 8, padn);
      Append(PAD, padn);
      Append(data, 8);
      assert data[..8] == data;
      NothingLeft(done, buf[..count0 / 8 % 64], S.Padding(message));
      digest := Store();
    }
  }

  // The program's constants are the sine table.

  lemma Constants1()
    ensures S.T(0) == T_MASK ^ 0x28955b87 && S.T(1) == T_MASK ^ 0x173848a9
    ensures S.T(2) == 0x242070db && S.T(3) == T_MASK ^ 0x3e423111
    ensures S.T(4) == T_MASK ^ 0x0a83f050 && S.T(5) == 0x4787c62a
    ensures S.T(6) == T_MASK ^ 0x57cfb9ec && S.T(7) == T_MASK ^ 0x02b96afe
    ensures S.T(8) == 0x698098d8 && S.T(9) == T_MASK ^ 0x74bb0850
    ensures S.T(10) == T_MASK ^ 0x0000a44e && S.T(11) == T_MASK ^ 0x76a32841
    ensures S.T(12) == 0x6b901122 && S.T(13) == T_MASK ^ 0x02678e6c
    ensures S.T(14) == T_MASK ^ 0x5986bc71 && S.T(15) == 0x49b40821
  {
  }

  lemma Constants2()
    ensures S.T(16) == T_MASK ^ 0x09e1da9d && S.T(17) == T_MASK ^ 0x3fbf4cbf
    ensures S.T(18) == 0x265e5a51 && S.T(19) == T_MASK ^ 0x16493855
    ensures S.T(20) == T_MASK ^ 0x29d0efa2 && S.T(21) == 0x02441453
    ensures S.T(22) == T_MASK ^ 0x275e197e && S.T(23) == T_MASK ^ 0x182c0437
    ensures S.T(24) == 0x21e1cde6 && S.T(25) == T_MASK ^ 0x3cc8f829
    ensures S.T(26) == T_MASK ^ 0x0b2af278 && S.T(27) == 0x455a14ed
    ensures S.T(28) == T_MASK ^ 0x561c16fa && S.T(29) == T_MASK ^ 0x03105c07
    ensures S.T(30) == 0x676f02d9 && S.T(31) == T_MASK ^ 0x72d5b375
  {
  }

  lemma Constants3()
    ensures S.T(32) == T_MASK ^ 0x0005c6bd && S.T(33) == T_MASK ^ 0x788e097e
    ensures S.T(34) == 0x6d9d6122 && S.T(35) == T_MASK ^ 0x021ac7f3
    ensures S.T(36) == T_MASK ^ 0x5b4115bb && S.T(37) == 0x4bdecfa9
    ensures S.T(38) == T_MASK ^ 0x0944b49f && S.T(39) == T_MASK ^ 0x4140438f
    ensures S.T(40) == 0x289b7ec6 && S.T(41) == T_MASK ^ 0x155ed805
    ensures S.T(42) == T_MASK ^ 0x2b10cf7a && S.T(43) == 0x04881d05
    ensures S.T(44) == T_MASK ^ 0x262b2fc6 && S.T(45) == T_MASK ^ 0x1924661a
    ensures S.T(46) == 0x1fa27cf8 && S.T(47) == T_MASK ^ 0x3b53a99a
  {
  }

  lemma Constants4()
    ensures S.T(48) == T_MASK ^ 0x0bd6ddbb && S.T(49) == 0x432aff97
    ensures S.T(50) == T_MASK ^ 0x546bdc58 && S.T(51) == T_MASK ^ 0x036c5fc6
    ensures S.T(52) == 0x655b59c3 && S.T(53) == T_MASK ^ 0x70f3336d
    ensures S.T(54) == T_MASK ^ 0x00100b82 && S.T(55) == T_MASK ^ 0x7a7ba22e
    ensures S.T(56) == 0x6fa87e4f && S.T(57) == T_MASK ^ 0x01d3191f
    ensures S.T(58) == T_MASK ^ 0x5cfebceb && S.T(59) == 0x4e0811a1
    ensures S.T(60) == T_MASK ^ 0x08ac817d && S.T(61) == T_MASK ^ 0x42c50dca
    ensures S.T(62) == 0x2ad7d2bb && S.T(63) == T_MASK ^ 0x14792c6e
  {
  }

  function RegsOf(s: seq<word>): S.Regs
    requires |s| == 4
  {
    S.Regs(s[0], s[1], s[2], s[3])
  }

  lemma AddCommutes(x: word, y: word)
    ensures S.Add(x, y) == S.Add(y, x)
  {
  }

  lemma NoSteps(v: S.Regs, data: seq<byte>)
    requires |data| == S.SIZE
    ensures S.Steps(v, data, 0) == v
  {
  }

  lemma StartsAt(s: seq<word>)
    requires s == [0x67452301, T_MASK ^ 0x10325476, T_MASK ^ 0x67452301, 0x10325476]
    ensures RegsOf(s) == S.START == S.Chain([])
  {
  }

  /** What is left in the buffer is the byte count modulo 64. */
  lemma SameRest(done: seq<byte>, left: nat, n: nat)
    requires Whole(done, 64) && left < 64 && n == |done| + left
    ensures 8 * n % WRAP / 8 % 64 == left
  {
    WholeLength(done, 64);
    PartOf(|done|, left, 64);
    Mod64(n);
  }

  /** A length is an int, and so is its sum with the offset into a partial block,
      which is taken only when there is one. */
  predicate OneCallFits(offset: nat, nbytes: nat) {
    nbytes < 0x8000_0000 && (offset == 0 || offset + nbytes < 0x8000_0000)
  }

  lemma Mod64(n: nat)
    ensures 8 * n % WRAP / 8 % 64 == n % 64
  {
    var k, y := n / 0x2000_0000, n % 0x2000_0000;
    Quotient(8 * n, k, 8 * y);
    assert n == y + 64 * (0x80_0000 * k);
  }

  lemma PaddingFits(done: seq<byte>, rest: seq<byte>, count: nat, padn: nat)
    requires Whole(done, 64) && |rest| < 64 && |rest| == count % 64 && count < WRAP
    requires padn == (WRAP + 55 - count) % 64 + 1
    ensures S.Padding(done + rest) == (done + rest) + PAD[..padn] + LittleEndian(8 * |done + rest|, 8)
  {
    hide Whole, LittleEndian, Gap;
    WholeLength(done, 64);
    PadLength(count, padn);
    GapOfPart(|done|, |rest|);
    assert PAD[..padn] == [0x80] + Zeros(padn - 1);
  }

  lemma PadLength(count: nat, padn: nat)
    requires count < WRAP && padn == (WRAP + 55 - count) % 64 + 1
    ensures padn == if count % 64 < 56 then 56 - count % 64 else 120 - count % 64
  {
  }

  /** Any split of a message gives the digest of the whole. */
  method HashChunks(chunks: seq<seq<byte>>) returns (digest: seq<byte>)
    requires forall i :: 0 <= i < |chunks| ==> OneCallFits(|Joint(chunks[..i])| % 64, |chunks[i]|)
    ensures digest == S.Digest(Joint(chunks))
  {
    hide S.Chain, RegsOf, Counts, S.Digest, Joint, Taken;
    var ctx := new Context();
    JointNothing([], chunks);
    for i := 0 to |chunks|
      invariant ctx.Valid() && fresh(ctx) && fresh(ctx.abcd) && fresh(ctx.buf)
      invariant ctx.Message() == Joint(chunks[..i])
    {
      JointNext(chunks, i);
      BufferedLength(ctx.done, ctx.buf[..ctx.count0 / 8 % 64], 64);
      ctx.Append(chunks[i], |chunks[i]|);
      TakenAll(chunks[i]);
    }
    JointAll(chunks);
    digest := ctx.Finish();
  }
}
