/** SHA-224 and SHA-256 on words held in 64 bits compute what the 32-bit form of the standard computes. */
module Sha2Narrow {
  import opened Blocks
  import opened Sha2Spec
  import H = Sha256Spec
  import Sha2

  /** A 32-bit word held in 64 bits. */
  function Wide(u: H.half): word {
    u as word
  }

  lemma WideIs(u: H.half)
    ensures Wide(u) == u as word
  {
  }

  lemma RawAdd(u: H.half, v: H.half)
    ensures Sha256.Add(u as word, v as word) == (u + v) as word
  {
  }

  lemma AddIs(u: H.half, v: H.half)
    ensures H.Add(u, v) == u + v
  {
  }

  lemma WideAdd(u: H.half, v: H.half)
    ensures Sha256.Add(Wide(u), Wide(v)) == Wide(H.Add(u, v))
  {
    hide *;
    WideIs(u);
    WideIs(v);
    WideIs(u + v);
    AddIs(u, v);
    RawAdd(u, v);
  }

  lemma RawXor(u: H.half, v: H.half)
    ensures Xor(u as word, v as word) == (u ^ v) as word
  {
  }

  lemma XorIs(u: H.half, v: H.half)
    ensures H.Xor(u, v) == u ^ v
  {
  }

  lemma WideXor(u: H.half, v: H.half)
    ensures Xor(Wide(u), Wide(v)) == Wide(H.Xor(u, v))
  {
    hide *;
    WideIs(u);
    WideIs(v);
    WideIs(u ^ v);
    XorIs(u, v);
    RawXor(u, v);
  }

  lemma WideXor3(u: H.half, v: H.half, w: H.half)
    ensures Xor3(Wide(u), Wide(v), Wide(w)) == Wide(H.Xor3(u, v, w))
  {
    hide Xor, H.Xor, Wide;
    WideXor(u, v);
    WideXor(H.Xor(u, v), w);
  }

  lemma RawCh(u: H.half, v: H.half, w: H.half)
    ensures Ch(u as word, v as word, w as word) == ((u & v) ^ (!u & w)) as word
  {
  }

  lemma ChIs(u: H.half, v: H.half, w: H.half)
    ensures H.Ch(u, v, w) == (u & v) ^ (!u & w)
  {
  }

  lemma WideCh(u: H.half, v: H.half, w: H.half)
    ensures Ch(Wide(u), Wide(v), Wide(w)) == Wide(H.Ch(u, v, w))
  {
    hide *;
    WideIs(u);
    WideIs(v);
    WideIs(w);
    WideIs((u & v) ^ (!u & w));
    ChIs(u, v, w);
    RawCh(u, v, w);
  }

  lemma RawMaj(u: H.half, v: H.half, w: H.half)
    ensures Maj(u as word, v as word, w as word) == ((u & v) ^ (u & w) ^ (v & w)) as word
  {
  }

  lemma MajIs(u: H.half, v: H.half, w: H.half)
    ensures H.Maj(u, v, w) == (u & v) ^ (u & w) ^ (v & w)
  {
  }

  lemma WideMaj(u: H.half, v: H.half, w: H.half)
    ensures Maj(Wide(u), Wide(v), Wide(w)) == Wide(H.Maj(u, v, w))
  {
    hide *;
    WideIs(u);
    WideIs(v);
    WideIs(w);
    WideIs((u & v) ^ (u & w) ^ (v & w));
    MajIs(u, v, w);
    RawMaj(u, v, w);
  }

  predicate Holds(x: word, u: H.half) {
    x == u as word
  }

  lemma RawRotr(u: H.half, n: H.half)
    requires n <= 32
    ensures Holds(Sha256.Rotr(u as word, n as word), (u >> n) | (u << (32 - n)))
  {
  }

  lemma RotrIs(u: H.half, n: H.half)
    requires n <= 32
    ensures H.Rotr(u, n) == (u >> n) | (u << (32 - n))
  {
  }

  lemma HalfRotr(u: H.half, n: H.half)
    requires n <= 32
    ensures Holds(Sha256.Rotr(u as word, n as word), H.Rotr(u, n))
  {
    hide *;
    RawRotr(u, n);
    RotrIs(u, n);
  }

  lemma WideRotr(u: H.half, n: H.half)
    requires n <= 32
    ensures Sha256.Rotr(Wide(u), n as word) == Wide(H.Rotr(u, n))
  {
    hide Sha256.Rotr, H.Rotr;
    HalfRotr(u, n);
  }

  lemma RawShr(u: H.half, n: H.half)
    requires n <= 32
    ensures Holds(Shr(u as word, n as word), u >> n)
  {
  }

  lemma ShrIs(u: H.half, n: H.half)
    requires n <= 32
    ensures H.Shr(u, n) == u >> n
  {
  }

  lemma HalfShr(u: H.half, n: H.half)
    requires n <= 32
    ensures Holds(Shr(u as word, n as word), H.Shr(u, n))
  {
    hide *;
    RawShr(u, n);
    ShrIs(u, n);
  }

  lemma WideShr(u: H.half, n: H.half)
    requires n <= 32
    ensures Shr(Wide(u), n as word) == Wide(H.Shr(u, n))
  {
    hide Shr, H.Shr;
    HalfShr(u, n);
  }

  lemma WideF1(u: H.half)
    ensures Sha256.F1(Wide(u)) == Wide(H.F1(u))
  {
    hide Wide, Xor3, H.Xor3, Sha256.Rotr, H.Rotr;
    WideRotr(u, 2);
    WideRotr(u, 13);
    WideRotr(u, 22);
    WideXor3(H.Rotr(u, 2), H.Rotr(u, 13), H.Rotr(u, 22));
  }

  lemma WideF2(u: H.half)
    ensures Sha256.F2(Wide(u)) == Wide(H.F2(u))
  {
    hide Wide, Xor3, H.Xor3, Sha256.Rotr, H.Rotr;
    WideRotr(u, 6);
    WideRotr(u, 11);
    WideRotr(u, 25);
    WideXor3(H.Rotr(u, 6), H.Rotr(u, 11), H.Rotr(u, 25));
  }

  lemma WideF3(u: H.half)
    ensures Sha256.F3(Wide(u)) == Wide(H.F3(u))
  {
    hide Wide, Xor3, H.Xor3, Sha256.Rotr, H.Rotr, Shr, H.Shr;
    WideRotr(u, 7);
    WideRotr(u, 18);
    WideShr(u, 3);
    WideXor3(H.Rotr(u, 7), H.Rotr(u, 18), H.Shr(u, 3));
  }

  lemma WideF4(u: H.half)
    ensures Sha256.F4(Wide(u)) == Wide(H.F4(u))
  {
    hide Wide, Xor3, H.Xor3, Sha256.Rotr, H.Rotr, Shr, H.Shr;
    WideRotr(u, 17);
    WideRotr(u, 19);
    WideShr(u, 10);
    WideXor3(H.Rotr(u, 17), H.Rotr(u, 19), H.Shr(u, 10));
  }

  // ----- bytes ---------------------------------------------------------------------------------------

  lemma RawJoin(a: bv8, b: bv8, c: bv8, d: bv8)
    ensures JoinBytes(0, a, b, c, d) ==
            (((a as H.half) << 24) | ((b as H.half) << 16) | ((c as H.half) << 8) | (d as H.half)) as word
  {
  }

  lemma JoinIs(a: bv8, b: bv8, c: bv8, d: bv8)
    ensures H.JoinBytes(a, b, c, d) ==
            ((a as H.half) << 24) | ((b as H.half) << 16) | ((c as H.half) << 8) | (d as H.half)
  {
  }

  lemma WideJoin(a: bv8, b: bv8, c: bv8, d: bv8)
    ensures JoinBytes(0, a, b, c, d) == Wide(H.JoinBytes(a, b, c, d))
  {
    hide *;
    JoinIs(a, b, c, d);
    RawJoin(a, b, c, d);
    WideIs(((a as H.half) << 24) | ((b as H.half) << 16) | ((c as H.half) << 8) | (d as H.half));
  }

  lemma WidePack(s: seq<byte>)
    requires |s| == 4
    ensures Sha256.Pack(s) == Wide(H.Pack(s))
  {
    hide Wide, JoinBytes, H.JoinBytes;
    WideJoin(s[0] as bv8, s[1] as bv8, s[2] as bv8, s[3] as bv8);
  }

  lemma WideOctets(u: H.half)
    ensures Octet(Wide(u)) == H.Octet(u) && Octet(Wide(u) >> 8) == H.Octet(u >> 8)
    ensures Octet(Wide(u) >> 16) == H.Octet(u >> 16) && Octet(Wide(u) >> 24) == H.Octet(u >> 24)
  {
  }

  lemma WideUnpack(u: H.half)
    ensures Sha256.Unpack(Wide(u)) == H.Unpack(u)
  {
    hide Wide, Octet, H.Octet;
    WideOctets(u);
  }

  // ----- the block function ------------------------------------------------------------------------------

  function WideVars(v: H.Vars): Vars {
    Vars(Wide(v.a), Wide(v.b), Wide(v.c), Wide(v.d), Wide(v.e), Wide(v.f), Wide(v.g), Wide(v.h))
  }

  lemma WideExtend(w2: H.half, w7: H.half, w15: H.half, w16: H.half)
    ensures Extend(Sha256, Wide(w2), Wide(w7), Wide(w15), Wide(w16)) == Wide(H.Extend(w2, w7, w15, w16))
  {
    hide Wide, Sha256.Add, H.Add, Sha256.F3, H.F3, Sha256.F4, H.F4;
    WideF4(w2);
    WideF3(w15);
    WideAdd(H.F4(w2), w7);
    WideAdd(H.Add(H.F4(w2), w7), H.F3(w15));
    WideAdd(H.Add(H.Add(H.F4(w2), w7), H.F3(w15)), w16);
  }

  lemma {:induction false} WideSchedule(block: seq<byte>, t: nat)
    requires |block| == H.SIZE
    ensures Schedule(Sha256, block, t) == Wide(H.Schedule(block, t))
  {
    hide Wide, Extend, H.Extend, Sha256.Pack, H.Pack;
    if t < 16 {
      WidePack(block[4 * t..4 * (t + 1)]);
    } else {
      WideSchedule(block, t - 2);
      WideSchedule(block, t - 7);
      WideSchedule(block, t - 15);
      WideSchedule(block, t - 16);
      WideExtend(H.Schedule(block, t - 2), H.Schedule(block, t - 7),
                 H.Schedule(block, t - 15), H.Schedule(block, t - 16));
    }
  }

  lemma WideT1(e: H.half, f: H.half, g: H.half, h: H.half, k: H.half, w: H.half)
    ensures T1(Sha256, Wide(e), Wide(f), Wide(g), Wide(h), Wide(k), Wide(w)) == Wide(H.T1(e, f, g, h, k, w))
  {
    hide Wide, Sha256.Add, H.Add, Sha256.F2, H.F2, Ch, H.Ch;
    WideF2(e);
    WideCh(e, f, g);
    WideAdd(h, H.F2(e));
    WideAdd(H.Add(h, H.F2(e)), H.Ch(e, f, g));
    WideAdd(H.Add(H.Add(h, H.F2(e)), H.Ch(e, f, g)), k);
    WideAdd(H.Add(H.Add(H.Add(h, H.F2(e)), H.Ch(e, f, g)), k), w);
  }

  lemma WideT2(a: H.half, b: H.half, c: H.half)
    ensures T2(Sha256, Wide(a), Wide(b), Wide(c)) == Wide(H.T2(a, b, c))
  {
    hide Wide, Sha256.Add, H.Add, Sha256.F1, H.F1, Maj, H.Maj;
    WideF1(a);
    WideMaj(a, b, c);
    WideAdd(H.F1(a), H.Maj(a, b, c));
  }

  lemma WideRound(v: H.Vars, k: H.half, w: H.half)
    ensures Round(Sha256, WideVars(v), Wide(k), Wide(w)) == WideVars(H.Round(v, k, w))
  {
    hide Wide, Sha256.Add, H.Add, T1, H.T1, T2, H.T2;
    var t1, t2 := H.T1(v.e, v.f, v.g, v.h, k, w), H.T2(v.a, v.b, v.c);
    WideT1(v.e, v.f, v.g, v.h, k, w);
    WideT2(v.a, v.b, v.c);
    WideAdd(t1, t2);
    WideAdd(v.d, t1);
  }

  lemma {:induction false} WideRounds(v: H.Vars, block: seq<byte>, t: nat)
    requires |block| == H.SIZE && t <= 64
    ensures Rounds(Sha256, WideVars(v), block, t) == WideVars(H.Rounds(v, block, t))
  {
    hide Round, H.Round, Schedule, H.Schedule, WideVars;
    if t > 0 {
      WideRounds(v, block, t - 1);
      WideSchedule(block, t - 1);
      assert Sha256.K(t - 1) == Wide(H.SHA256_K[t - 1]);
      WideRound(H.Rounds(v, block, t - 1), H.SHA256_K[t - 1], H.Schedule(block, t - 1));
    }
  }

  lemma WideAddVars(x: H.Vars, y: H.Vars)
    ensures AddVars(Sha256, WideVars(x), WideVars(y)) == WideVars(H.AddVars(x, y))
  {
    hide Wide, Sha256.Add, H.Add;
    WideAdd(x.a, y.a);
    WideAdd(x.b, y.b);
    WideAdd(x.c, y.c);
    WideAdd(x.d, y.d);
    WideAdd(x.e, y.e);
    WideAdd(x.f, y.f);
    WideAdd(x.g, y.g);
    WideAdd(x.h, y.h);
  }

  /** One block of SHA-256 on words held in 64 bits is one block on 32-bit words. */
  lemma WideCompress(v: H.Vars, block: seq<byte>)
    ensures Compress(Sha256, WideVars(v), block) == WideVars(H.Compress(v, block))
  {
    hide AddVars, H.AddVars, Rounds, H.Rounds, WideVars;
    if |block| == H.SIZE {
      WideRounds(v, block, 64);
      WideAddVars(v, H.Rounds(v, block, 64));
    }
  }

  // ----- whole messages -------------------------------------------------------------------------------------

  lemma {:induction false} WideFold(v: H.Vars, data: seq<byte>)
    ensures Fold(Compressor(Sha256), H.SIZE, WideVars(v), data) == WideVars(Fold(H.Compress, H.SIZE, v, data))
    decreases |data|
  {
    hide Compress, H.Compress, WideVars;
    if |data| >= H.SIZE {
      WideCompress(v, data[..H.SIZE]);
      WideFold(H.Compress(v, data[..H.SIZE]), data[H.SIZE..]);
    }
  }

  lemma {:induction false} WideOutput(h: seq<word>, g: seq<H.half>, n: nat)
    requires |h| == |g| && n <= |g| && forall i :: 0 <= i < |g| ==> h[i] == Wide(g[i])
    ensures Output(Sha256, h, n) == H.Output(g, n)
    decreases n
  {
    hide Wide, Sha256.Unpack, H.Unpack;
    if n > 0 {
      WideUnpack(g[n - 1]);
      WideOutput(h, g, n - 1);
    }
  }

  /** The hash with a 32-bit initial value. */
  function Narrow(start: H.Vars, n: nat): Hash {
    Hash(Sha256, WideVars(start), n)
  }

  /** SHA-224 and SHA-256 are the hashes of the standard's initial values. */
  lemma NarrowHashes()
    ensures SHA224 == Narrow(H.START224, 7) && SHA256 == Narrow(H.START256, 8)
  {
  }

  lemma NarrowChain(start: H.Vars, n: nat, padded: seq<byte>)
    ensures Chain(Narrow(start, n), padded) == WideVars(H.Chain(start, padded))
  {
    hide Fold, WideVars, Compress, H.Compress;
    WideFold(start, padded);
  }

  lemma WideWords(v: H.Vars)
    ensures forall i :: 0 <= i < 8 ==> WordsOf(WideVars(v))[i] == Wide(H.WordsOf(v)[i])
  {
    hide Wide;
  }

  /** Their digests are the digests of the 32-bit form. */
  lemma NarrowDigest(start: H.Vars, n: nat, padded: seq<byte>)
    requires n <= 8
    ensures Digest(Narrow(start, n), padded) == H.Digest(start, n, padded)
  {
    hide Wide, WideVars, Chain, H.Chain, WordsOf, H.WordsOf, Output, H.Output;
    NarrowChain(start, n, padded);
    WideWords(H.Chain(start, padded));
    WideOutput(WordsOf(WideVars(H.Chain(start, padded))), H.WordsOf(H.Chain(start, padded)), n);
  }

  /** Any split of a message gives SHA-256's digest of the whole in 32-bit arithmetic;
      below 2^29 bytes, the standard's. */
  method Sha256Chunks(unrolled: bool, chunks: seq<seq<byte>>) returns (digest: seq<byte>)
    requires Sha2.CallsFit(Sha256, chunks)
    ensures digest == H.Digest(H.START256, 8, ProgramPadding(Sha256, Joint(chunks)))
    ensures |Joint(chunks)| < 0x2000_0000 ==> digest == H.Digest(H.START256, 8, StandardPadding(Sha256, Joint(chunks)))
  {
    hide Digest, H.Digest, ProgramPadding, StandardPadding, WideVars;
    NarrowHashes();
    digest := Sha2.HashChunks(SHA256, unrolled, chunks);
    NarrowDigest(H.START256, 8, ProgramPadding(Sha256, Joint(chunks)));
    NarrowDigest(H.START256, 8, StandardPadding(Sha256, Joint(chunks)));
  }

  /** The same for SHA-224. */
  method Sha224Chunks(unrolled: bool, chunks: seq<seq<byte>>) returns (digest: seq<byte>)
    requires Sha2.CallsFit(Sha256, chunks)
    ensures digest == H.Digest(H.START224, 7, ProgramPadding(Sha256, Joint(chunks)))
    ensures |Joint(chunks)| < 0x2000_0000 ==> digest == H.Digest(H.START224, 7, StandardPadding(Sha256, Joint(chunks)))
  {
    hide Digest, H.Digest, ProgramPadding, StandardPadding, WideVars;
    NarrowHashes();
    digest := Sha2.HashChunks(SHA224, unrolled, chunks);
    NarrowDigest(H.START224, 7, ProgramPadding(Sha256, Joint(chunks)));
    NarrowDigest(H.START224, 7, StandardPadding(Sha256, Joint(chunks)));
  }
}
