/** The SHA-2 context: streaming update, final block, and both forms of the block function. */
module Sha2 {
  import opened Blocks
  import opened Sha2Spec

  class Context {
    const hash: Hash
    const alg: Algorithm := hash.alg
    /** UNROLL_LOOPS */
    const unrolled: bool
    var totLen: nat
    var len: nat
    const block: array<byte>
    const h: array<word>
    /** The message bytes already compressed. */
    ghost var done: seq<byte>

    ghost predicate Shape() {
      hash.Valid() && block.Length == 2 * alg.BlockBytes() && h.Length == 8
    }

    /** The chaining value is the one of the bytes taken so far. */
    ghost predicate Chained()
      reads `done, h
    {
      Shape() && Whole(done, alg.BlockBytes()) && VarsOf(h[..]) == Chain(hash, done)
    }

    ghost predicate Valid()
      reads this, h
    {
      Chained() && len < alg.BlockBytes() && totLen == |done| % WRAP
    }

    /** Everything hashed so far. */
    ghost function Message(): seq<byte>
      requires Valid()
      reads this, block, h
    {
      done + block[..len]
    }

    /** sha224_init, sha256_init, sha384_init, sha512_init. */
    constructor (hash: Hash, unrolled: bool)
      requires hash.Valid()
      ensures Valid() && Message() == [] && this.hash == hash && fresh(block) && fresh(h)
    {
      this.hash := hash;
      this.unrolled := unrolled;
      block := new byte[2 * hash.alg.BlockBytes()];
      h := new word[8];
      len := 0;
      totLen := 0;
      done := [];
      new;
      LoadState(WordsOf(hash.start));
      ChainOfNothing(hash);
    }

    method LoadState(s: seq<word>)
      requires |s| == h.Length == 8
      modifies h
      ensures h[..] == s
    {
      for i := 0 to 8
        invariant forall j :: 0 <= j < i ==> h[j] == s[j]
      {
        h[i] := s[i];
      }
    }

    // ----- the block function ---------------------------------------------------------------------

    ghost predicate Loaded(w: array<word>, sub: seq<byte>)
      reads w
    {
      |sub| == alg.BlockBytes() && w.Length == alg.RoundCount() &&
      forall t :: 0 <= t < w.Length ==> w[t] == Schedule(alg, sub, t)
    }

    method LoadSchedule(sub: seq<byte>) returns (w: array<word>)
      requires |sub| == alg.BlockBytes()
      ensures fresh(w) && Loaded(w, sub)
    {
      hide Extend, alg.Pack;
      w := new word[alg.RoundCount()];
      for j := 0 to 16
        invariant forall t :: 0 <= t < j ==> w[t] == Schedule(alg, sub, t)
      {
        w[j] := alg.Pack(sub[alg.Offset(j)..alg.Offset(j + 1)]);
      }
      for j := 16 to alg.RoundCount()
        invariant forall t :: 0 <= t < j ==> w[t] == Schedule(alg, sub, t)
      {
        w[j] := Extend(alg, w[j - 2], w[j - 7], w[j - 15], w[j - 16]);
      }
    }

    method CopyState() returns (wv: array<word>)
      requires h.Length == 8
      ensures fresh(wv) && wv.Length == 8 && wv[..] == h[..]
    {
      wv := new word[8];
      for j := 0 to 8
        invariant forall i :: 0 <= i < j ==> wv[i] == h[i]
      {
        wv[j] := h[j];
      }
    }

    method AddState(wv: array<word>)
      requires h.Length == wv.Length == 8 && wv != h
      modifies h
      ensures VarsOf(h[..]) == AddVars(alg, old(VarsOf(h[..])), VarsOf(wv[..]))
    {
      hide alg.Add;
      for j := 0 to 8
        invariant forall i :: 0 <= i < j ==> h[i] == alg.Add(old(h[i]), wv[i])
        invariant forall i :: j <= i < 8 ==> h[i] == old(h[i])
      {
        h[j] := alg.Add(h[j], wv[j]);
      }
    }

    /** A round of the rolled loop shifts eight registers. */
    method RolledRound(wv: array<word>, k: word, w: word)
      requires wv.Length == 8
      modifies wv
      ensures VarsOf(wv[..]) == Round(alg, old(VarsOf(wv[..])), k, w)
    {
      hide T1, T2, alg.Add;
      ghost var v := VarsOf(wv[..]);
      var t1 := T1(alg, wv[4], wv[5], wv[6], wv[7], k, w);
      var t2 := T2(alg, wv[0], wv[1], wv[2]);
      wv[7] := wv[6];
      wv[6] := wv[5];
      wv[5] := wv[4];
      wv[4] := alg.Add(wv[3], t1);
      wv[3] := wv[2];
      wv[2] := wv[1];
      wv[1] := wv[0];
      wv[0] := alg.Add(t1, t2);
      assert wv[7] == v.g && wv[6] == v.f && wv[5] == v.e && wv[4] == alg.Add(v.d, t1);
      assert wv[3] == v.c && wv[2] == v.b && wv[1] == v.a;
    }

    method RolledRounds(w: array<word>, wv: array<word>, ghost sub: seq<byte>)
      requires Loaded(w, sub) && wv.Length == 8 && w != wv
      modifies wv
      ensures VarsOf(wv[..]) == Rounds(alg, old(VarsOf(wv[..])), sub, alg.RoundCount())
    {
      hide Round, Schedule;
      for j := 0 to alg.RoundCount()
        invariant VarsOf(wv[..]) == Rounds(alg, old(VarsOf(wv[..])), sub, j)
      {
        RolledRound(wv, alg.K(j), w[j]);
      }
    }

    /** SHA256_EXP and SHA512_EXP, in round j of a block that started from v. */
    method Exp(w: array<word>, wv: array<word>, a: nat, b: nat, c: nat, d: nat, e: nat, f: nat, g: nat, i: nat, j: nat,
               ghost v: Vars, ghost sub: seq<byte>)
      requires Loaded(w, sub) && wv.Length == 8 && w != wv && j < alg.RoundCount() && a < 8
      requires b == Around(a, 1) && c == Around(a, 2) && d == Around(a, 3) && e == Around(a, 4)
      requires f == Around(a, 5) && g == Around(a, 6) && i == Around(a, 7)
      requires RolesAt(wv[..], a) == Rounds(alg, v, sub, j)
      modifies wv
      ensures RolesAt(wv[..], i) == Rounds(alg, v, sub, j + 1)
    {
      hide T1, T2, alg.Add, Schedule, Round;
      var t1 := T1(alg, wv[e], wv[f], wv[g], wv[i], alg.K(j), w[j]);
      var t2 := T2(alg, wv[a], wv[b], wv[c]);
      RenamedRound(alg, wv[..], a, alg.K(j), w[j]);
      wv[d] := alg.Add(wv[d], t1);
      wv[i] := alg.Add(t1, t2);
      assert wv[..] == ExpSeq(alg, old(wv[..]), a, alg.K(j), w[j]);
    }

    /** Eight renamed rounds bring every role back to its own index. */
    method EightRounds(w: array<word>, wv: array<word>, j: nat, ghost v: Vars, ghost sub: seq<byte>)
      requires Loaded(w, sub) && wv.Length == 8 && w != wv && j + 8 <= alg.RoundCount()
      requires RolesAt(wv[..], 0) == Rounds(alg, v, sub, j)
      modifies wv
      ensures RolesAt(wv[..], 0) == Rounds(alg, v, sub, j + 8)
    {
      hide Round, Schedule;
      Exp(w, wv, 0, 1, 2, 3, 4, 5, 6, 7, j, v, sub);
      Exp(w, wv, 7, 0, 1, 2, 3, 4, 5, 6, j + 1, v, sub);
      Exp(w, wv, 6, 7, 0, 1, 2, 3, 4, 5, j + 2, v, sub);
      Exp(w, wv, 5, 6, 7, 0, 1, 2, 3, 4, j + 3, v, sub);
      Exp(w, wv, 4, 5, 6, 7, 0, 1, 2, 3, j + 4, v, sub);
      Exp(w, wv, 3, 4, 5, 6, 7, 0, 1, 2, j + 5, v, sub);
      Exp(w, wv, 2, 3, 4, 5, 6, 7, 0, 1, j + 6, v, sub);
      Exp(w, wv, 1, 2, 3, 4, 5, 6, 7, 0, j + 7, v, sub);
    }

    method UnrolledRounds(w: array<word>, wv: array<word>, ghost sub: seq<byte>)
      requires Loaded(w, sub) && wv.Length == 8 && w != wv
      modifies wv
      ensures VarsOf(wv[..]) == Rounds(alg, old(VarsOf(wv[..])), sub, alg.RoundCount())
    {
      hide Rounds, Round, Schedule, VarsOf, RolesAt;
      ghost var v := VarsOf(wv[..]);
      ghost var turns := 0;
      StartRounds(alg, wv[..], sub);
      var j := 0;
      while j < alg.RoundCount()
        invariant j == 8 * turns <= alg.RoundCount()
        invariant RolesAt(wv[..], 0) == Rounds(alg, v, sub, j)
      {
        EightRounds(w, wv, j, v, sub);
        j, turns := j + 8, turns + 1;
      }
      SameRoles(wv[..]);
    }

    method TransfBlock(sub: seq<byte>)
      requires Shape() && |sub| == alg.BlockBytes()
      modifies h
      ensures VarsOf(h[..]) == Compress(alg, old(VarsOf(h[..])), sub)
    {
      hide AddVars, Rounds;
      var w := LoadSchedule(sub);
      var wv := CopyState();
      if unrolled {
        UnrolledRounds(w, wv, sub);
      } else {
        RolledRounds(w, wv, sub);
      }
      AddState(wv);
    }

    method TransfNext(sub: seq<byte>)
      requires Chained() && |sub| == alg.BlockBytes()
      modifies h, `done
      ensures Chained() && done == old(done) + sub
    {
      hide Compress;
      FoldOne(Compressor(alg), alg.BlockBytes(), Chain(hash, done), sub);
      FoldAppend(Compressor(alg), alg.BlockBytes(), hash.start, done, sub);
      WholeAppend(done, sub, alg.BlockBytes());
      TransfBlock(sub);
      done := done + sub;
    }

    /** sha256_transf and sha512_transf; the offset of a block is an int. */
    method Transf(message: seq<byte>, blockNb: nat)
      requires Chained() && Span(blockNb, alg.BlockBytes()) <= |message|
      requires blockNb <= MaxBlocks(alg.BlockBytes())
      modifies h, `done
      ensures Chained() && done == old(done) + message[..Span(blockNb, alg.BlockBytes())]
    {
      hide Chain, VarsOf, Whole;
      OffsetsFit(blockNb, alg.BlockBytes());
      for i := 0 to blockNb
        invariant Span(i, alg.BlockBytes()) <= |message|
        invariant Chained() && done == old(done) + message[..Span(i, alg.BlockBytes())]
      {
        SpanGrows(i + 1, blockNb, alg.BlockBytes());
        var at: int32 := Span(i, alg.BlockBytes());
        Extended(old(done), message, at, at + alg.BlockBytes());
        TransfNext(message[at..at + alg.BlockBytes()]);
      }
    }

    // ----- streaming -----------------------------------------------------------------------------

    /** memcpy into the block buffer. */
    method CopyIn(at: nat, bytes: seq<byte>)
      requires at + |bytes| <= block.Length
      modifies block
      ensures block[..at] == old(block[..at]) && block[at..at + |bytes|] == bytes
    {
      for i := 0 to |bytes|
        invariant block[..at] == old(block[..at])
        invariant forall j :: 0 <= j < i ==> block[at + j] == bytes[j]
      {
        block[at + i] := bytes[i];
      }
    }

    /** What is left after the whole blocks stays in the buffer. */
    method KeepRest(rest: seq<byte>, taken: nat)
      requires Chained() && |rest| < alg.BlockBytes()
      requires totLen == (|done| - taken) % WRAP && taken <= |done|
      modifies `len, `totLen, block
      ensures Valid() && Message() == done + rest
    {
      hide Chain, VarsOf, Whole;
      ModSum(|done| - taken, taken);
      CopyIn(0, rest);
      len := |rest|;
      totLen := (totLen + taken) % WRAP;
    }

    /** Compresses the filled first block of the buffer, then the whole blocks that follow it. */
    method TakeBlocks(shifted: seq<byte>, blockNb: nat)
      requires Chained() && Span(blockNb, alg.BlockBytes()) <= |shifted| && blockNb <= MaxBlocks(alg.BlockBytes())
      modifies h, `done
      ensures Chained()
      ensures done == old(done) + block[..alg.BlockBytes()] + shifted[..Span(blockNb, alg.BlockBytes())]
    {
      hide Chain, VarsOf, Whole;
      assert Span(1, alg.BlockBytes()) == alg.BlockBytes();
      Transf(block[..alg.BlockBytes()], 1);
      Transf(shifted, blockNb);
    }

    /** Fills the buffer from the front of the message. */
    method FillBuffer(message: seq<byte>) returns (remLen: nat)
      requires Chained() && len < alg.BlockBytes()
      modifies block
      ensures remLen == if |message| < alg.BlockBytes() - len then |message| else alg.BlockBytes() - len
      ensures block[..len + remLen] == old(block[..len]) + message[..remLen]
    {
      var tmpLen := alg.BlockBytes() - len;
      remLen := if |message| < tmpLen then |message| else tmpLen;
      CopyIn(len, message[..remLen]);
      Joined(block[..len + remLen], len, old(block[..len]), message[..remLen]);
    }

    /** sha224_update, sha256_update, sha384_update, sha512_update, while the block offsets fit an int. */
    method Update(message: seq<byte>)
      requires Valid() && OneCallFits(alg, len, |message|)
      modifies `len, `totLen, `done, block, h
      ensures Valid() && Message() == old(Message()) + message
    {
      hide Chain, VarsOf, Whole;
      var size := alg.BlockBytes();
      ghost var head := block[..len];
      var remLen := FillBuffer(message);
      if len + |message| < size {
        assert message[..remLen] == message;
        len := len + |message|;
      } else {
        var newLen := |message| - remLen;
        var blockNb := newLen / size;
        var shifted := message[remLen..];
        SpanOfQuotient(newLen, size);
        TakeBlocks(shifted, blockNb);
        Regrouped(old(done), head, message, remLen, Span(blockNb, size));
        KeepRest(shifted[Span(blockNb, size)..], Span(blockNb + 1, size));
      }
    }

    // ----- the final block --------------------------------------------------------------------------

    /** UNPACK32 into the block buffer. */
    method StoreLength(x: nat, at: nat)
      requires at + 4 <= block.Length
      modifies block
      ensures block[at..at + 4] == BigEndian(x, 4)
      ensures forall i :: 0 <= i < block.Length && !(at <= i < at + 4) ==> block[i] == old(block[i])
    {
      block[at + 3] := ByteOf(x);
      block[at + 2] := ByteOf(x / 0x100);
      block[at + 1] := ByteOf(x / 0x1_0000);
      block[at] := ByteOf(x / 0x100_0000);
      BigEndianShifts(x);
    }

    /** memset. */
    method Clear(from: nat, to: nat)
      requires from <= to <= block.Length
      modifies block
      ensures forall i :: from <= i < to ==> block[i] == 0
      ensures forall i :: 0 <= i < block.Length && !(from <= i < to) ==> block[i] == old(block[i])
    {
      for i := from to to
        invariant forall j :: from <= j < i ==> block[j] == 0
        invariant forall j :: 0 <= j < block.Length && !(from <= j < i) ==> block[j] == old(block[j])
      {
        block[i] := 0;
      }
    }

    method PadBuffer(pmLen: nat, lenB: nat)
      requires len + 5 <= pmLen <= block.Length
      modifies block
      ensures block[..pmLen] == old(block[..len]) + [0x80] + Zeros(pmLen - len - 5) + BigEndian(lenB, 4)
    {
      ghost var kept := block[..len];
      Clear(len, pmLen);
      block[len] := 0x80;
      StoreLength(lenB, pmLen - 4);
      assert block[..len] == kept;
      assert block[len + 1..pmLen - 4] == Zeros(pmLen - len - 5);
      FourParts(block[..pmLen], len, pmLen - 4);
    }

    /** sha224_final, sha256_final, sha384_final, sha512_final. */
    method Final() returns (digest: seq<byte>)
      requires Valid()
      modifies `done, block, h
      ensures digest == Digest(hash, ProgramPadding(alg, old(Message())))
    {
      hide Chain, VarsOf, Digest, Whole, ProgramPadding, BigEndian, Span;
      ghost var message := Message();
      var size := alg.BlockBytes();
      var blockNb := if size - (1 + alg.FieldBytes()) < len % size then 2 else 1;
      var lenB := (totLen + len) % WRAP * 8 % WRAP;
      var pmLen := Span(blockNb, size);
      LengthBits(|done|, len);
      PaddingFits(alg, done, block[..len], blockNb);
      PadBuffer(pmLen, lenB);
      Transf(block[..], blockNb);
      assert block[..][..pmLen] == block[..pmLen];
      digest := Store();
    }

    method Store() returns (digest: seq<byte>)
      requires Chained()
      ensures digest == Digest(hash, done)
    {
      hide Chain;
      assert h[..] == WordsOf(Chain(hash, done));
      digest := [];
      for i := 0 to hash.digestWords
        invariant digest == Output(alg, h[..], i)
      {
        digest := digest + alg.Unpack(h[i]);
      }
    }
  }

  lemma SameRoles(s: seq<word>)
    requires |s| == 8
    ensures RolesAt(s, 0) == VarsOf(s)
  {
  }

  lemma StartRounds(alg: Algorithm, s: seq<word>, sub: seq<byte>)
    requires |s| == 8 && |sub| == alg.BlockBytes()
    ensures Rounds(alg, VarsOf(s), sub, 0) == RolesAt(s, 0)
  {
  }

  lemma ChainOfNothing(hash: Hash)
    ensures Chain(hash, []) == hash.start && VarsOf(WordsOf(hash.start)) == hash.start
  {
  }

  lemma FourParts(s: seq<byte>, a: nat, b: nat)
    requires a < b <= |s|
    ensures s == s[..a] + [s[a]] + s[a + 1..b] + s[b..]
  {
  }

  lemma LengthBits(taken: nat, len: nat)
    ensures (taken % WRAP + len) % WRAP * 8 % WRAP == 8 * (taken + len) % WRAP
  {
    ModSum(taken, len);
    TimesEight(taken + len);
  }

  /** The one or two blocks of the buffer complete the padded message. */
  lemma PaddingFits(alg: Algorithm, done: seq<byte>, rest: seq<byte>, blockNb: nat)
    requires Whole(done, alg.BlockBytes()) && |rest| < alg.BlockBytes()
    requires blockNb == if alg.BlockBytes() - (1 + alg.FieldBytes()) < |rest| % alg.BlockBytes() then 2 else 1
    ensures |rest| + 5 <= Span(blockNb, alg.BlockBytes()) <= 2 * alg.BlockBytes()
    ensures ProgramPadding(alg, done + rest) ==
            done + (rest + [0x80] + Zeros(Span(blockNb, alg.BlockBytes()) - |rest| - 5) +
                    BigEndian(8 * (|done| + |rest|) % WRAP, 4))
  {
    hide Whole, BigEndian, Gap;
    var size, field := alg.BlockBytes(), alg.FieldBytes();
    GapFits(alg, done, |rest|, blockNb);
    var gap := Gap(|done + rest|, size, field);
    assert Zeros(gap + (field - 4)) == Zeros(gap) + Zeros(field - 4);
    SixParts(done, rest, Zeros(gap), Zeros(field - 4), BigEndian(8 * (|done| + |rest|) % WRAP, 4));
  }

  lemma GapFits(alg: Algorithm, done: seq<byte>, rest: nat, blockNb: nat)
    requires Whole(done, alg.BlockBytes()) && rest < alg.BlockBytes()
    requires blockNb == if alg.BlockBytes() - (1 + alg.FieldBytes()) < rest % alg.BlockBytes() then 2 else 1
    ensures rest + 1 + Gap(|done| + rest, alg.BlockBytes(), alg.FieldBytes()) + alg.FieldBytes() ==
            Span(blockNb, alg.BlockBytes())
  {
    var size := alg.BlockBytes();
    WholeLength(done, size);
    PartOf(|done|, rest, size);
    assert Span(1, size) == size && Span(2, size) == 2 * size;
  }

  lemma SixParts(done: seq<byte>, rest: seq<byte>, y: seq<byte>, z: seq<byte>, f: seq<byte>)
    ensures done + rest + [0x80] + y + (z + f) == done + (rest + [0x80] + (y + z) + f)
  {
  }

  /** The one-call form, as sha224, sha256, sha384 and sha512 make it. */
  method OneShot(hash: Hash, unrolled: bool, message: seq<byte>) returns (digest: seq<byte>)
    requires hash.Valid() && OneCallFits(hash.alg, 0, |message|)
    ensures digest == Digest(hash, ProgramPadding(hash.alg, message))
  {
    hide Digest, ProgramPadding, Chain, VarsOf, Whole;
    var ctx := new Context(hash, unrolled);
    ctx.Update(message);
    assert [] + message == message;
    digest := ctx.Final();
  }

  /** Any split of a message gives the digest of the whole; below 2^29 bytes, the digest of the standard. */
  method HashChunks(hash: Hash, unrolled: bool, chunks: seq<seq<byte>>) returns (digest: seq<byte>)
    requires hash.Valid() && CallsFit(hash.alg, chunks)
    ensures digest == Digest(hash, ProgramPadding(hash.alg, Joint(chunks)))
    ensures |Joint(chunks)| < 0x2000_0000 ==> digest == Digest(hash, StandardPadding(hash.alg, Joint(chunks)))
  {
    hide Digest, ProgramPadding, StandardPadding, Chain, VarsOf, Whole;
    var ctx := new Context(hash, unrolled);
    for i := 0 to |chunks|
      invariant ctx.Valid() && ctx.hash == hash && fresh(ctx) && fresh(ctx.h) && fresh(ctx.block)
      invariant ctx.Message() == Joint(chunks[..i])
    {
      JointNext(chunks, i);
      BufferedLength(ctx.done, ctx.block[..ctx.len], ctx.alg.BlockBytes());
      ctx.Update(chunks[i]);
    }
    JointAll(chunks);
    digest := ctx.Final();
    if |Joint(chunks)| < 0x2000_0000 {
      ShortEnough(hash.alg, |Joint(chunks)|);
      PaddingExact(hash.alg, Joint(chunks));
    }
  }

  lemma ShortEnough(alg: Algorithm, len: nat)
    requires len < 0x2000_0000
    ensures 8 * len < Pow256(alg.FieldBytes())
  {
    FourBytes();
    PowGrows(4, alg.FieldBytes());
  }

  /** The whole blocks that one call takes from the message itself, past what fills the buffer,
      are few enough for int offsets. */
  predicate OneCallFits(alg: Algorithm, len: nat, more: nat)
    requires len < alg.BlockBytes()
  {
    len + more < alg.BlockBytes() || (more - (alg.BlockBytes() - len)) / alg.BlockBytes() <= MaxBlocks(alg.BlockBytes())
  }

  predicate CallsFit(alg: Algorithm, chunks: seq<seq<byte>>) {
    forall i :: 0 <= i < |chunks| ==> OneCallFits(alg, |Joint(chunks[..i])| % alg.BlockBytes(), |chunks[i]|)
  }

  lemma Extended(done: seq<byte>, message: seq<byte>, at: nat, to: nat)
    requires at <= to <= |message|
    ensures done + message[..to] == done + message[..at] + message[at..to]
  {
  }

  lemma Joined(s: seq<byte>, at: nat, a: seq<byte>, b: seq<byte>)
    requires at <= |s| && s[..at] == a && s[at..] == b
    ensures s == a + b
  {
  }

  lemma Regrouped(done: seq<byte>, head: seq<byte>, message: seq<byte>, rem: nat, taken: nat)
    requires rem <= |message| && taken <= |message| - rem
    ensures done + (head + message[..rem]) + message[rem..][..taken] + message[rem..][taken..] ==
            (done + head) + message
  {
  }
}
