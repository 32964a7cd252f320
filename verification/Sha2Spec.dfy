/** FIPS 180-2: the block function, the padding and the four hashes, for SHA-256's and SHA-512's words at once. */
module Sha2Spec {
  import opened Blocks
  import Sha256Spec

  type word = bv64

  const SHA512_K: seq<word> := [
    0x428a2f98d728ae22, 0x7137449123ef65cd, 0xb5c0fbcfec4d3b2f, 0xe9b5dba58189dbbc,
    0x3956c25bf348b538, 0x59f111f1b605d019, 0x923f82a4af194f9b, 0xab1c5ed5da6d8118,
    0xd807aa98a3030242, 0x12835b0145706fbe, 0x243185be4ee4b28c, 0x550c7dc3d5ffb4e2,
    0x72be5d74f27b896f, 0x80deb1fe3b1696b1, 0x9bdc06a725c71235, 0xc19bf174cf692694,
    0xe49b69c19ef14ad2, 0xefbe4786384f25e3, 0x0fc19dc68b8cd5b5, 0x240ca1cc77ac9c65,
    0x2de92c6f592b0275, 0x4a7484aa6ea6e483, 0x5cb0a9dcbd41fbd4, 0x76f988da831153b5,
    0x983e5152ee66dfab, 0xa831c66d2db43210, 0xb00327c898fb213f, 0xbf597fc7beef0ee4,
    0xc6e00bf33da88fc2, 0xd5a79147930aa725, 0x06ca6351e003826f, 0x142929670a0e6e70,
    0x27b70a8546d22ffc, 0x2e1b21385c26c926, 0x4d2c6dfc5ac42aed, 0x53380d139d95b3df,
    0x650a73548baf63de, 0x766a0abb3c77b2a8, 0x81c2c92e47edaee6, 0x92722c851482353b,
    0xa2bfe8a14cf10364, 0xa81a664bbc423001, 0xc24b8b70d0f89791, 0xc76c51a30654be30,
    0xd192e819d6ef5218, 0xd69906245565a910, 0xf40e35855771202a, 0x106aa07032bbd1b8,
    0x19a4c116b8d2d0c8, 0x1e376c085141ab53, 0x2748774cdf8eeb99, 0x34b0bcb5e19b48a8,
    0x391c0cb3c5c95a63, 0x4ed8aa4ae3418acb, 0x5b9cca4f7763e373, 0x682e6ff3d6b2b8a3,
    0x748f82ee5defb2fc, 0x78a5636f43172f60, 0x84c87814a1f0ab72, 0x8cc702081a6439ec,
    0x90befffa23631e28, 0xa4506cebde82bde9, 0xbef9a3f7b2c67915, 0xc67178f2e372532b,
    0xca273eceea26619c, 0xd186b8c721c0c207, 0xeada7dd6cde0eb1e, 0xf57d4f7fee6ed178,
    0x06f067aa72176fba, 0x0a637dc5a2c898a6, 0x113f9804bef90dae, 0x1b710b35131c471b,
    0x28db77f523047d84, 0x32caab7b40c72493, 0x3c9ebe0a15c9bebc, 0x431d67c49c100d4c,
    0x4cc5d4becb3e42b6, 0x597f299cfc657e2a, 0x5fcb6fab3ad6faec, 0x6c44198c4a475817]

  /** SHA-256 works on 32-bit words, which stay in the low half of a word here; SHA-512 uses all 64 bits. */
  datatype Algorithm = Sha256 | Sha512 {
    function WordBytes(): nat {
      if Sha256? then 4 else 8
    }

    function BlockBytes(): nat {
      16 * WordBytes()
    }

    /** Where word t of a block starts: t << 2 or t << 3. */
    function Offset(t: nat): nat {
      if Sha256? then 4 * t else 8 * t
    }

    /** Bytes of the length field the standard asks for. */
    function FieldBytes(): nat {
      2 * WordBytes()
    }

    function RoundCount(): nat {
      if Sha256? then 64 else 80
    }

    function K(t: nat): word
      requires t < RoundCount()
    {
      if Sha256? then Sha256Spec.SHA256_K[t] as word else SHA512_K[t]
    }

    /** Wraps to the word size. */
    function Trim(x: word): word {
      if Sha256? then x & 0xFFFF_FFFF else x
    }

    function Add(x: word, y: word): word {
      Trim(x + y)
    }

    /** The macro ROTR. */
    function Rotr(x: word, n: word): word
      requires n <= if Sha256? then 32 else 64
    {
      if Sha256? then Trim((x >> n) | (x << (32 - n))) else (x >> n) | (x << (64 - n))
    }

    function F1(x: word): word {
      if Sha256? then Xor3(Rotr(x, 2), Rotr(x, 13), Rotr(x, 22)) else Xor3(Rotr(x, 28), Rotr(x, 34), Rotr(x, 39))
    }

    function F2(x: word): word {
      if Sha256? then Xor3(Rotr(x, 6), Rotr(x, 11), Rotr(x, 25)) else Xor3(Rotr(x, 14), Rotr(x, 18), Rotr(x, 41))
    }

    function F3(x: word): word {
      if Sha256? then Xor3(Rotr(x, 7), Rotr(x, 18), Shr(x, 3)) else Xor3(Rotr(x, 1), Rotr(x, 8), Shr(x, 7))
    }

    function F4(x: word): word {
      if Sha256? then Xor3(Rotr(x, 17), Rotr(x, 19), Shr(x, 10)) else Xor3(Rotr(x, 19), Rotr(x, 61), Shr(x, 6))
    }

    /** PACK32 and PACK64. */
    function Pack(s: seq<byte>): word
      requires |s| == WordBytes()
    {
      if Sha256? then Join(0, s) else Join(Join(0, s[..4]), s[4..])
    }

    /** UNPACK32 and UNPACK64. */
    function Unpack(x: word): (s: seq<byte>)
      ensures |s| == WordBytes()
    {
      if Sha256? then Split(x) else Split(x >> 32) + Split(x)
    }
  }

  /** Four bytes below a word, most significant first. */
  function Join(high: word, s: seq<byte>): word
    requires |s| == 4
  {
    JoinBytes(high, s[0] as bv8, s[1] as bv8, s[2] as bv8, s[3] as bv8)
  }

  function JoinBytes(high: word, a: bv8, b: bv8, c: bv8, d: bv8): word {
    (high << 32) | ((a as word) << 24) | ((b as word) << 16) | ((c as word) << 8) | (d as word)
  }

  /** The cast to an 8-bit unsigned. */
  function Octet(x: word): bv8 {
    (x & 0xFF) as bv8
  }

  /** The low 32 bits, most significant byte first. */
  function Split(x: word): (s: seq<byte>)
    ensures |s| == 4
  {
    [Octet(x >> 24) as byte, Octet(x >> 16) as byte, Octet(x >> 8) as byte, Octet(x) as byte]
  }

  /** The macro SHFR. */
  function Shr(x: word, n: word): word
    requires n <= 64
  {
    x >> n
  }

  function Xor(x: word, y: word): word {
    x ^ y
  }

  function Xor3(x: word, y: word, z: word): word {
    Xor(Xor(x, y), z)
  }

  function Ch(x: word, y: word, z: word): word {
    (x & y) ^ (!x & z)
  }

  function Maj(x: word, y: word, z: word): word {
    (x & y) ^ (x & z) ^ (y & z)
  }

  datatype Vars = Vars(a: word, b: word, c: word, d: word, e: word, f: word, g: word, h: word)

  /** Word t of the message schedule. */
  function Schedule(alg: Algorithm, block: seq<byte>, t: nat): word
    requires |block| == alg.BlockBytes()
  {
    if t < 16 then alg.Pack(block[alg.Offset(t)..alg.Offset(t + 1)])
    else Extend(alg, Schedule(alg, block, t - 2), Schedule(alg, block, t - 7),
                Schedule(alg, block, t - 15), Schedule(alg, block, t - 16))
  }

  function Extend(alg: Algorithm, w2: word, w7: word, w15: word, w16: word): word {
    alg.Add(alg.Add(alg.Add(alg.F4(w2), w7), alg.F3(w15)), w16)
  }

  function T1(alg: Algorithm, e: word, f: word, g: word, h: word, k: word, w: word): word {
    alg.Add(alg.Add(alg.Add(alg.Add(h, alg.F2(e)), Ch(e, f, g)), k), w)
  }

  function T2(alg: Algorithm, a: word, b: word, c: word): word {
    alg.Add(alg.F1(a), Maj(a, b, c))
  }

  function Round(alg: Algorithm, v: Vars, k: word, w: word): Vars {
    var t1, t2 := T1(alg, v.e, v.f, v.g, v.h, k, w), T2(alg, v.a, v.b, v.c);
    Vars(alg.Add(t1, t2), v.a, v.b, v.c, alg.Add(v.d, t1), v.e, v.f, v.g)
  }

  function Rounds(alg: Algorithm, v: Vars, block: seq<byte>, t: nat): Vars
    requires |block| == alg.BlockBytes() && t <= alg.RoundCount()
  {
    if t == 0 then v else Round(alg, Rounds(alg, v, block, t - 1), alg.K(t - 1), Schedule(alg, block, t - 1))
  }

  function AddVars(alg: Algorithm, x: Vars, y: Vars): Vars {
    Vars(alg.Add(x.a, y.a), alg.Add(x.b, y.b), alg.Add(x.c, y.c), alg.Add(x.d, y.d),
         alg.Add(x.e, y.e), alg.Add(x.f, y.f), alg.Add(x.g, y.g), alg.Add(x.h, y.h))
  }

  /** One block of the hash computation; total, so that it can be iterated. */
  function Compress(alg: Algorithm, v: Vars, block: seq<byte>): Vars
  {
    if |block| == alg.BlockBytes() then AddVars(alg, v, Rounds(alg, v, block, alg.RoundCount())) else v
  }

  ghost function Compressor(alg: Algorithm): (Vars, seq<byte>) -> Vars
  {
    (v, block) => Compress(alg, v, block)
  }

  // ----- the hashes ------------------------------------------------------------------------------

  /** One of the four hashes: its block function, initial value, and how many words of the result it keeps. */
  datatype Hash = Hash(alg: Algorithm, start: Vars, digestWords: nat) {
    ghost predicate Valid() {
      digestWords <= 8
    }
  }

  const SHA224 := Hash(Sha256, Vars(
    0xc1059ed8, 0x367cd507, 0x3070dd17, 0xf70e5939, 0xffc00b31, 0x68581511, 0x64f98fa7, 0xbefa4fa4), 7)

  const SHA256 := Hash(Sha256, Vars(
    0x6a09e667, 0xbb67ae85, 0x3c6ef372, 0xa54ff53a, 0x510e527f, 0x9b05688c, 0x1f83d9ab, 0x5be0cd19), 8)

  const SHA384 := Hash(Sha512, Vars(
    0xcbbb9d5dc1059ed8, 0x629a292a367cd507, 0x9159015a3070dd17, 0x152fecd8f70e5939,
    0x67332667ffc00b31, 0x8eb44a8768581511, 0xdb0c2e0d64f98fa7, 0x47b5481dbefa4fa4), 6)

  const SHA512 := Hash(Sha512, Vars(
    0x6a09e667f3bcc908, 0xbb67ae8584caa73b, 0x3c6ef372fe94f82b, 0xa54ff53a5f1d36f1,
    0x510e527fade682d1, 0x9b05688c2b3e6c1f, 0x1f83d9abfb41bd6b, 0x5be0cd19137e2179), 8)

  /** The chaining value after whole blocks. */
  ghost function Chain(hash: Hash, data: seq<byte>): Vars {
    Fold(Compressor(hash.alg), hash.alg.BlockBytes(), hash.start, data)
  }

  /** The first n words of a chaining value as bytes. */
  function Output(alg: Algorithm, h: seq<word>, n: nat): seq<byte>
    requires n <= |h|
  {
    if n == 0 then [] else Output(alg, h, n - 1) + alg.Unpack(h[n - 1])
  }

  function WordsOf(v: Vars): (s: seq<word>)
    ensures |s| == 8
  {
    [v.a, v.b, v.c, v.d, v.e, v.f, v.g, v.h]
  }

  /** Padding of FIPS 180-2 section 5.1: the bit length in 8 or 16 bytes. */
  function StandardPadding(alg: Algorithm, msg: seq<byte>): seq<byte> {
    Padded(msg, alg.BlockBytes(), BigEndian(8 * |msg|, alg.FieldBytes()))
  }

  /** Padding of the program: only the low 32 bits of the bit length. */
  function ProgramField(alg: Algorithm, len: nat): (f: seq<byte>)
    ensures |f| == alg.FieldBytes()
  {
    Zeros(alg.FieldBytes() - 4) + BigEndian(8 * len % WRAP, 4)
  }

  function ProgramPadding(alg: Algorithm, msg: seq<byte>): seq<byte> {
    Padded(msg, alg.BlockBytes(), ProgramField(alg, |msg|))
  }

  ghost function Digest(hash: Hash, padded: seq<byte>): seq<byte>
    requires hash.Valid()
  {
    Output(hash.alg, WordsOf(Chain(hash, padded)), hash.digestWords)
  }

  lemma FieldExact(alg: Algorithm, len: nat)
    requires 8 * len < Pow256(alg.FieldBytes())
    ensures ProgramField(alg, len) == BigEndian(8 * len, alg.FieldBytes()) <==> len < 0x2000_0000
  {
    hide Pow256, BigEndian;
    var v, n := 8 * len, alg.FieldBytes();
    FourBytes();
    PowGrows(4, n);
    BigEndianWidens(v % WRAP, 4, n - 4);
    if BigEndian(v % WRAP, n) == BigEndian(v, n) {
      BigEndianInjective(v % WRAP, v, n);
    }
  }

  /** For every message the standard admits, the program pads as the standard does exactly below 2^29 bytes. */
  lemma PaddingExact(alg: Algorithm, msg: seq<byte>)
    requires 8 * |msg| < Pow256(alg.FieldBytes())
    ensures ProgramPadding(alg, msg) == StandardPadding(alg, msg) <==> |msg| < 0x2000_0000
  {
    hide Padded, ProgramField, BigEndian;
    FieldExact(alg, |msg|);
    if ProgramPadding(alg, msg) == StandardPadding(alg, msg) {
      PaddedSplits(msg, ProgramField(alg, |msg|), msg, BigEndian(8 * |msg|, alg.FieldBytes()), alg.BlockBytes());
    }
  }

  lemma FourBytes()
    ensures Pow256(4) == WRAP
  {
  }

  lemma {:induction false} PowGrows(m: nat, n: nat)
    requires m <= n
    ensures Pow256(m) <= Pow256(n)
    decreases n
  {
    if m < n {
      PowGrows(m, n - 1);
    }
  }

  lemma FieldInjective(alg: Algorithm, m: nat, n: nat)
    requires ProgramField(alg, m) == ProgramField(alg, n)
    ensures 8 * m % WRAP == 8 * n % WRAP
  {
    hide Pow256, BigEndian;
    var f, g, z := ProgramField(alg, m), ProgramField(alg, n), Zeros(alg.FieldBytes() - 4);
    assert BigEndian(8 * m % WRAP, 4) == f[|z|..] && BigEndian(8 * n % WRAP, 4) == g[|z|..];
    FourBytes();
    BigEndianInjective(8 * m % WRAP, 8 * n % WRAP, 4);
  }

  lemma CloseLengths(m: nat, n: nat)
    requires 8 * m % WRAP == 8 * n % WRAP && m < n + 128 && n < m + 128
    ensures m == n
  {
  }

  /** Even where it departs from the standard, the program never pads two messages to the same blocks. */
  lemma ProgramPaddingInjective(alg: Algorithm, a: seq<byte>, b: seq<byte>)
    ensures ProgramPadding(alg, a) == ProgramPadding(alg, b) ==> a == b
  {
    hide Padded, ProgramField;
    if ProgramPadding(alg, a) == ProgramPadding(alg, b) {
      PaddedSplits(a, ProgramField(alg, |a|), b, ProgramField(alg, |b|), alg.BlockBytes());
      FieldInjective(alg, |a|, |b|);
      CloseLengths(|a|, |b|);
    }
  }

  // ----- register renaming ------------------------------------------------------------------------

  function VarsOf(s: seq<word>): Vars
    requires |s| == 8
  {
    Vars(s[0], s[1], s[2], s[3], s[4], s[5], s[6], s[7])
  }

  /** Index r + q modulo 8. */
  function Around(r: nat, q: nat): (i: nat)
    requires r < 8 && q < 8
    ensures i < 8
  {
    if r + q < 8 then r + q else r + q - 8
  }

  /** The working variables when role a sits at index r, and each next role one place on, modulo 8. */
  function RolesAt(s: seq<word>, r: nat): Vars
    requires |s| == 8 && r < 8
  {
    Vars(s[r], s[Around(r, 1)], s[Around(r, 2)], s[Around(r, 3)],
         s[Around(r, 4)], s[Around(r, 5)], s[Around(r, 6)], s[Around(r, 7)])
  }

  /** A renamed round stores two words only: d += t1 and h = t1 + t2. */
  function ExpSeq(alg: Algorithm, s: seq<word>, r: nat, k: word, w: word): (s': seq<word>)
    requires |s| == 8 && r < 8
    ensures |s'| == 8
  {
    var v := RolesAt(s, r);
    var t1 := T1(alg, v.e, v.f, v.g, v.h, k, w);
    s[Around(r, 3) := alg.Add(v.d, t1)][Around(r, 7) := alg.Add(t1, T2(alg, v.a, v.b, v.c))]
  }

  /** Moving role a one index down turns the two stores into the shift of all eight registers. */
  lemma RenamedRound(alg: Algorithm, s: seq<word>, r: nat, k: word, w: word)
    requires |s| == 8 && r < 8
    ensures RolesAt(ExpSeq(alg, s, r, k, w), Around(r, 7)) == Round(alg, RolesAt(s, r), k, w)
  {
    hide T1, T2, alg.Add;
    var p := Around(r, 7);
    assert Around(p, 1) == r && Around(p, 2) == Around(r, 1) && Around(p, 3) == Around(r, 2);
    assert Around(p, 4) == Around(r, 3);
    assert Around(p, 5) == Around(r, 4) && Around(p, 6) == Around(r, 5) && Around(p, 7) == Around(r, 6);
  }
}
