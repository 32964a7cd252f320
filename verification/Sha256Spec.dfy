/** SHA-224 and SHA-256 as sections 4.1.2, 5 and 6.2 of FIPS 180-2 state them, on 32-bit words. */
module Sha256Spec {
  import opened Blocks

  type half = bv32

  const SIZE: nat := 64

  const SHA256_K: seq<half> := [
    0x428a2f98, 0x71374491, 0xb5c0fbcf, 0xe9b5dba5, 0x3956c25b, 0x59f111f1, 0x923f82a4, 0xab1c5ed5,
    0xd807aa98, 0x12835b01, 0x243185be, 0x550c7dc3, 0x72be5d74, 0x80deb1fe, 0x9bdc06a7, 0xc19bf174,
    0xe49b69c1, 0xefbe4786, 0x0fc19dc6, 0x240ca1cc, 0x2de92c6f, 0x4a7484aa, 0x5cb0a9dc, 0x76f988da,
    0x983e5152, 0xa831c66d, 0xb00327c8, 0xbf597fc7, 0xc6e00bf3, 0xd5a79147, 0x06ca6351, 0x14292967,
    0x27b70a85, 0x2e1b2138, 0x4d2c6dfc, 0x53380d13, 0x650a7354, 0x766a0abb, 0x81c2c92e, 0x92722c85,
    0xa2bfe8a1, 0xa81a664b, 0xc24b8b70, 0xc76c51a3, 0xd192e819, 0xd6990624, 0xf40e3585, 0x106aa070,
    0x19a4c116, 0x1e376c08, 0x2748774c, 0x34b0bcb5, 0x391c0cb3, 0x4ed8aa4a, 0x5b9cca4f, 0x682e6ff3,
    0x748f82ee, 0x78a5636f, 0x84c87814, 0x8cc70208, 0x90befffa, 0xa4506ceb, 0xbef9a3f7, 0xc67178f2]

  function Add(u: half, v: half): half {
    u + v
  }

  function Xor(u: half, v: half): half {
    u ^ v
  }

  function Xor3(u: half, v: half, w: half): half {
    Xor(Xor(u, v), w)
  }

  function Rotr(u: half, n: half): half
    requires n <= 32
  {
    (u >> n) | (u << (32 - n))
  }

  function Shr(u: half, n: half): half
    requires n <= 32
  {
    u >> n
  }

  function Ch(u: half, v: half, w: half): half {
    (u & v) ^ (!u & w)
  }

  function Maj(u: half, v: half, w: half): half {
    (u & v) ^ (u & w) ^ (v & w)
  }

  function F1(u: half): half {
    Xor3(Rotr(u, 2), Rotr(u, 13), Rotr(u, 22))
  }

  function F2(u: half): half {
    Xor3(Rotr(u, 6), Rotr(u, 11), Rotr(u, 25))
  }

  function F3(u: half): half {
    Xor3(Rotr(u, 7), Rotr(u, 18), Shr(u, 3))
  }

  function F4(u: half): half {
    Xor3(Rotr(u, 17), Rotr(u, 19), Shr(u, 10))
  }

  function JoinBytes(a: bv8, b: bv8, c: bv8, d: bv8): half {
    ((a as half) << 24) | ((b as half) << 16) | ((c as half) << 8) | (d as half)
  }

  function Pack(s: seq<byte>): half
    requires |s| == 4
  {
    JoinBytes(s[0] as bv8, s[1] as bv8, s[2] as bv8, s[3] as bv8)
  }

  function Octet(u: half): bv8 {
    (u & 0xFF) as bv8
  }

  function Unpack(u: half): (s: seq<byte>)
    ensures |s| == 4
  {
    [Octet(u >> 24) as byte, Octet(u >> 16) as byte, Octet(u >> 8) as byte, Octet(u) as byte]
  }

  datatype Vars = Vars(a: half, b: half, c: half, d: half, e: half, f: half, g: half, h: half)

  function Schedule(block: seq<byte>, t: nat): half
    requires |block| == SIZE
  {
    if t < 16 then Pack(block[4 * t..4 * (t + 1)])
    else Extend(Schedule(block, t - 2), Schedule(block, t - 7), Schedule(block, t - 15), Schedule(block, t - 16))
  }

  function Extend(w2: half, w7: half, w15: half, w16: half): half {
    Add(Add(Add(F4(w2), w7), F3(w15)), w16)
  }

  function T1(e: half, f: half, g: half, h: half, k: half, w: half): half {
    Add(Add(Add(Add(h, F2(e)), Ch(e, f, g)), k), w)
  }

  function T2(a: half, b: half, c: half): half {
    Add(F1(a), Maj(a, b, c))
  }

  function Round(v: Vars, k: half, w: half): Vars {
    var t1 := T1(v.e, v.f, v.g, v.h, k, w);
    Vars(Add(t1, T2(v.a, v.b, v.c)), v.a, v.b, v.c, Add(v.d, t1), v.e, v.f, v.g)
  }

  function Rounds(v: Vars, block: seq<byte>, t: nat): Vars
    requires |block| == SIZE && t <= 64
  {
    if t == 0 then v else Round(Rounds(v, block, t - 1), SHA256_K[t - 1], Schedule(block, t - 1))
  }

  function AddVars(x: Vars, y: Vars): Vars {
    Vars(Add(x.a, y.a), Add(x.b, y.b), Add(x.c, y.c), Add(x.d, y.d),
         Add(x.e, y.e), Add(x.f, y.f), Add(x.g, y.g), Add(x.h, y.h))
  }

  /** One block; total, so that it can be iterated. */
  function Compress(v: Vars, block: seq<byte>): Vars {
    if |block| == SIZE then AddVars(v, Rounds(v, block, 64)) else v
  }

  const START224 := Vars(
    0xc1059ed8, 0x367cd507, 0x3070dd17, 0xf70e5939, 0xffc00b31, 0x68581511, 0x64f98fa7, 0xbefa4fa4)

  const START256 := Vars(
    0x6a09e667, 0xbb67ae85, 0x3c6ef372, 0xa54ff53a, 0x510e527f, 0x9b05688c, 0x1f83d9ab, 0x5be0cd19)

  ghost function Chain(start: Vars, data: seq<byte>): Vars {
    Fold(Compress, SIZE, start, data)
  }

  function WordsOf(v: Vars): (s: seq<half>)
    ensures |s| == 8
  {
    [v.a, v.b, v.c, v.d, v.e, v.f, v.g, v.h]
  }

  function Output(h: seq<half>, n: nat): seq<byte>
    requires n <= |h|
  {
    if n == 0 then [] else Output(h, n - 1) + Unpack(h[n - 1])
  }

  /** The first n words of the result for a padded message: n = 7 for SHA-224, 8 for SHA-256. */
  ghost function Digest(start: Vars, n: nat, padded: seq<byte>): seq<byte>
    requires n <= 8
  {
    Output(WordsOf(Chain(start, padded)), n)
  }
}
