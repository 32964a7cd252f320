/** The SHA-1 context: streaming, padding, and HMAC. */
module Sha1 {
  import opened Blocks
  import opened Sha1Long
  import opened Sha1Block
  import opened Sha1Count
  import S = Sha1Spec

  function XorByte(a: byte, b: byte): byte {
    ((a as bv8) ^ (b as bv8)) as byte
  }

  // ----- HMAC of RFC 2104 section 2 -------------------------------------------------------------

  /** The key, hashed first when longer than a block, filled up with zeros. */
  ghost function KeyBlock(key: seq<byte>): (k: seq<byte>)
    ensures |k| == 64
  {
    var short := if |key| > 64 then S.Digest(key) else key;
    short + Zeros(64 - |short|)
  }

  function Masked(pad: byte, k: seq<byte>): (m: seq<byte>)
    ensures |m| == |k|
  {
    seq(|k|, i requires 0 <= i < |k| => XorByte(pad, k[i]))
  }

  ghost function Hmac(key: seq<byte>, text: seq<byte>): seq<byte> {
    S.Digest(Masked(0x5C, KeyBlock(key)) + S.Digest(Masked(0x36, KeyBlock(key)) + text))
  }

  const PADDING: seq<byte> := [0x80] + Zeros(63)

  class Context {
    /** Whether unsigned long has 64 bits. */
    const wide: bool
    var total0: nat
    var total1: nat
    const state: array<ulong>
    const buffer: array<byte>
    const ipad: array<byte>
    const opad: array<byte>
    /** The message bytes already processed. */
    ghost var done: seq<byte>

    ghost predicate Shape() {
      state.Length == 5 && buffer.Length == 64 && ipad.Length == 64 && opad.Length == 64 &&
      buffer != ipad && buffer != opad && ipad != opad
    }

    /** The chaining value is the one of the bytes processed so far. */
    ghost predicate Chained()
      reads `done, state
    {
      Shape() && Whole(done, S.SIZE) && RegsOf(state[..]) == S.Chain(done)
    }

    ghost predicate Valid()
      reads this, state
    {
      Chained() && Counts(wide, total0, total1, |done| + total0 % 64)
    }

    ghost function Message(): seq<byte>
      requires Valid()
      reads this, state, buffer
    {
      done + buffer[..total0 % 64]
    }

    constructor (wide: bool)
      ensures Shape() && this.wide == wide && fresh(state) && fresh(buffer) && fresh(ipad) && fresh(opad)
    {
      this.wide := wide;
      total0, total1, done := 0, 0, [];
      state := new ulong[5];
      buffer := new byte[64];
      ipad := new byte[64];
      opad := new byte[64];
    }

    /** sha1_starts. */
    method Starts()
      requires Shape()
      modifies `total0, `total1, `done, state
      ensures Valid() && Message() == []
    {
      total0, total1, done := 0, 0, [];
      state[0], state[1], state[2], state[3], state[4] := 0x67452301, 0xEFCDAB89, 0x98BADCFE, 0x10325476, 0xC3D2E1F0;
      StartsAt(state[..]);
    }

    method Take(data: seq<byte>)
      requires Chained() && |data| == S.SIZE
      modifies state, `done
      ensures Chained() && done == old(done) + data
    {
      hide S.Compress, RegsOf;
      FoldOne(S.Compress, S.SIZE, S.Chain(done), data);
      FoldAppend(S.Compress, S.SIZE, S.START, done, data);
      WholeAppend(done, data, S.SIZE);
      Process(wide, state, data);
      done := done + data;
    }

    /** memcpy into the buffer. */
    method CopyIn(at: nat, bytes: seq<byte>)
      requires at + |bytes| <= buffer.Length
      modifies buffer
      ensures buffer[..at + |bytes|] == old(buffer[..at]) + bytes
    {
      for i := 0 to |bytes|
        invariant buffer[..at] == old(buffer[..at])
        invariant forall j :: 0 <= j < i ==> buffer[at + j] == bytes[j]
      {
        buffer[at + i] := bytes[i];
      }
    }

    /** Completes the partial block in the buffer. */
    method TakePartial(left: nat, front: seq<byte>)
      requires Chained() && left + |front| == 64
      modifies state, buffer, `done
      ensures Chained() && done == old(done + buffer[..left]) + front
    {
      hide S.Chain, RegsOf, Whole;
      CopyIn(left, front);
      Associates(done, old(buffer[..left]), front);
      assert buffer[..64] == buffer[..];
      Take(buffer[..]);
    }

    /** The rest of sha1_update, after the counter: completes a partial block, takes whole blocks, keeps the rest. */
    method Absorb(input: seq<byte>, partial: nat) returns (left: nat)
      requires Chained() && partial < 64
      modifies state, buffer, `done
      ensures Chained() && left < 64
      ensures done + buffer[..left] == old(done + buffer[..partial]) + input
    {
      hide S.Chain, RegsOf, Whole;
      ghost var goal := done + buffer[..partial] + input;
      Associates(done, buffer[..partial], input);
      left := partial;
      var rest := input;
      if left > 0 && |rest| >= 64 - left {
        Split(done + buffer[..left], rest, 64 - left);
        TakePartial(left, rest[..64 - left]);
        rest := rest[64 - left..];
        left := 0;
      }
      while |rest| >= 64
        invariant Chained() && left < 64 && (left == 0 || |rest| < 64 - left)
        invariant done + (buffer[..left] + rest) == goal
        decreases |rest|
      {
        Split(done, rest, 64);
        Take(rest[..64]);
        rest := rest[64..];
      }
      if |rest| > 0 {
        CopyIn(left, rest);
      }
      left := left + |rest|;
    }

    /** sha1_update. */
    method Update(input: seq<byte>, ilen: int)
      requires Valid() && ilen <= |input| && ilen < 0x8000_0000
      modifies `total0, `total1, `done, state, buffer
      ensures Valid() && Message() == old(Message()) + Taken(input, ilen)
    {
      hide S.Chain, RegsOf;
      if ilen <= 0 {
        return;
      }
      var left := total0 % 64;
      ghost var n := |done| + left;
      CountCarries(wide, total0, total1, n, ilen);
      total0 := (total0 + ilen) % WRAP;
      if total0 < ilen {
        total1 := (total1 + 1) % LongSize(wide);
      }
      var now := Absorb(input[..ilen], left);
      SameRest(done, now, n + ilen);
    }

    method PutState() returns (output: seq<byte>)
      requires Chained()
      ensures output == S.Output(S.Chain(done))
    {
      hide S.Chain, Low, Put, S.Unpack;
      PutLow(state[0]);
      PutLow(state[1]);
      PutLow(state[2]);
      PutLow(state[3]);
      PutLow(state[4]);
      output := Put(state[0]) + Put(state[1]) + Put(state[2]) + Put(state[3]) + Put(state[4]);
    }

    /** sha1_finish. */
    method Finish() returns (output: seq<byte>)
      requires Valid()
      modifies `total0, `total1, `done, state, buffer
      ensures output == S.Digest(old(Message()))
    {
      hide S.Chain, RegsOf, Whole, Counts, BigEndian;
      ghost var message := Message();
      var high := High(wide, total0, total1);
      var low := total0 * 8 % LongSize(wide);
      var msglen := BigEndian(high, 4) + BigEndian(low, 4);
      LengthField(wide, total0, total1, |message|);
      var last := total0 % 64;
      var padn := if last < 56 then 56 - last else 120 - last;
      PaddingFits(done, buffer[..last], padn);
      Update(PADDING, padn);
      Update(msglen, 8);
      assert msglen[..8] == msglen;
      NothingLeft(done, buffer[..total0 % 64], S.Padding(message));
      output := PutState();
    }

    // ----- HMAC ---------------------------------------------------------------------------------

    /** memset one of the pads to its byte, then XOR the key onto its front. */
    method SetPad(p: array<byte>, pad: byte, key: seq<byte>)
      requires p.Length == 64 && |key| <= 64 && pad in {0x36, 0x5C}
      modifies p
      ensures p[..] == Masked(pad, key + Zeros(64 - |key|))
    {
      for i := 0 to 64
        invariant forall j :: 0 <= j < i ==> p[j] == pad
      {
        p[i] := pad;
      }
      for i := 0 to |key|
        invariant forall j :: 0 <= j < i ==> p[j] == XorByte(pad, key[j])
        invariant forall j :: i <= j < 64 ==> p[j] == pad
      {
        p[i] := XorByte(p[i], key[i]);
      }
      var k := key + Zeros(64 - |key|);
      forall j | |key| <= j < 64 ensures XorByte(pad, k[j]) == pad {
        ZeroByte(pad, k[j]);
      }
    }

    /** sha1_hmac_starts. */
    method HmacStarts(key: seq<byte>)
      requires Shape() && |key| < 0x8000_0000
      modifies `total0, `total1, `done, state, buffer, ipad, opad
      ensures Valid() && Message() == Masked(0x36, KeyBlock(key)) && opad[..] == Masked(0x5C, KeyBlock(key))
    {
      hide S.Chain, RegsOf, Counts, S.Digest;
      var short := key;
      if |key| > 64 {
        short := OneShot(wide, key);
      }
      SetPad(ipad, 0x36, short);
      SetPad(opad, 0x5C, short);
      Starts();
      Update(ipad[..], 64);
      assert [] + ipad[..][..64] == ipad[..];
    }

    /** sha1_hmac_update. */
    method HmacUpdate(input: seq<byte>, ilen: int)
      requires Valid() && ilen <= |input| && ilen < 0x8000_0000
      modifies `total0, `total1, `done, state, buffer
      ensures Valid() && Message() == old(Message()) + Taken(input, ilen)
    {
      Update(input, ilen);
    }

    /** sha1_hmac_finish. */
    method HmacFinish() returns (output: seq<byte>)
      requires Valid()
      modifies `total0, `total1, `done, state, buffer
      ensures output == S.Digest(opad[..] + S.Digest(old(Message())))
    {
      hide S.Chain, RegsOf, Counts, S.Digest;
      var tmpbuf := Finish();
      Starts();
      Update(opad[..], 64);
      Update(tmpbuf, 20);
      assert [] + opad[..][..64] == opad[..] && tmpbuf[..20] == tmpbuf;
      output := Finish();
    }
  }

  lemma XorZero(a: byte, z: byte, i: bv8)
    requires a as bv8 == i && i as byte == a && z as bv8 == 0
    ensures XorByte(a, z) == a
  {
    assert i ^ 0 == i;
  }

  lemma ZeroByte(pad: byte, z: byte)
    requires pad in {0x36, 0x5C} && z == 0
    ensures XorByte(pad, z) == pad
  {
    if pad == 0x36 {
      XorZero(pad, z, 0x36);
    } else {
      XorZero(pad, z, 0x5C);
    }
  }

  /** sha1. */
  method OneShot(wide: bool, input: seq<byte>) returns (output: seq<byte>)
    requires |input| < 0x8000_0000
    ensures output == S.Digest(input)
  {
    hide S.Chain, RegsOf, Counts, S.Digest, Joint, Taken;
    var ctx := new Context(wide);
    ctx.Starts();
    ctx.Update(input, |input|);
    TakenAll(input);
    output := ctx.Finish();
  }

  /** Any split of a message gives the digest of the whole. */
  method HashChunks(wide: bool, chunks: seq<seq<byte>>) returns (output: seq<byte>)
    requires forall i :: 0 <= i < |chunks| ==> |chunks[i]| < 0x8000_0000
    ensures output == S.Digest(Joint(chunks))
  {
    hide S.Chain, RegsOf, Counts, S.Digest, Joint, Taken;
    var ctx := new Context(wide);
    ctx.Starts();
    JointNothing([], chunks);
    for i := 0 to |chunks|
      invariant ctx.Valid() && fresh(ctx) && fresh(ctx.state) && fresh(ctx.buffer)
      invariant ctx.Message() == Joint(chunks[..i])
    {
      JointNext(chunks, i);
      ctx.Update(chunks[i], |chunks[i]|);
      TakenAll(chunks[i]);
    }
    JointAll(chunks);
    output := ctx.Finish();
  }

  /** Any key and any split of the text give the HMAC of RFC 2104. */
  method HmacChunks(wide: bool, key: seq<byte>, chunks: seq<seq<byte>>) returns (output: seq<byte>)
    requires |key| < 0x8000_0000 && forall i :: 0 <= i < |chunks| ==> |chunks[i]| < 0x8000_0000
    ensures output == Hmac(key, Joint(chunks))
  {
    hide S.Chain, RegsOf, Counts, S.Digest, Masked, KeyBlock, Joint, Taken;
    var ctx := new Context(wide);
    ctx.HmacStarts(key);
    ghost var inner := Masked(0x36, KeyBlock(key));
    JointNothing(inner, chunks);
    for i := 0 to |chunks|
      invariant ctx.Valid() && fresh(ctx) && fresh(ctx.state) && fresh(ctx.buffer)
      invariant ctx.Message() == inner + Joint(chunks[..i]) && ctx.opad[..] == Masked(0x5C, KeyBlock(key))
    {
      JointNext(chunks, i);
      ctx.HmacUpdate(chunks[i], |chunks[i]|);
      TakenAll(chunks[i]);
      Associates(inner, Joint(chunks[..i]), chunks[i]);
    }
    JointAll(chunks);
    output := ctx.HmacFinish();
  }

  lemma Split(done: seq<byte>, rest: seq<byte>, n: nat)
    requires n <= |rest|
    ensures done + rest == done + rest[..n] + rest[n..]
  {
  }

  lemma StartsAt(s: seq<ulong>)
    requires s == [0x67452301, 0xEFCDAB89, 0x98BADCFE, 0x10325476, 0xC3D2E1F0]
    ensures RegsOf(s) == S.START == S.Chain([])
  {
  }

  /** What is left in the buffer is the count modulo 64. */
  lemma SameRest(done: seq<byte>, left: nat, n: nat)
    requires Whole(done, 64) && left < 64 && n == |done| + left
    ensures n % WRAP % 64 == left
  {
    WholeLength(done, 64);
    PartOf(|done|, left, 64);
    Mod64(n);
  }

  lemma Mod64(n: nat)
    ensures n % WRAP % 64 == n % 64
  {
    var k, y := n / WRAP, n % WRAP;
    assert n == y + 64 * (0x400_0000 * k);
  }

  lemma PaddingFits(done: seq<byte>, rest: seq<byte>, padn: nat)
    requires Whole(done, 64) && |rest| < 64 && padn == if |rest| < 56 then 56 - |rest| else 120 - |rest|
    ensures 0 < padn <= 64
    ensures S.Padding(done + rest) == (done + rest) + PADDING[..padn] + BigEndian(8 * |done + rest|, 8)
  {
    hide Whole, BigEndian, Gap;
    WholeLength(done, 64);
    GapOfPart(|done|, |rest|);
    assert PADDING[..padn] == [0x80] + Zeros(padn - 1);
  }
}
