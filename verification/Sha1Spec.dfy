/** FIPS 180-1: the hash computation of section 7, with 80 words and five shifting registers, on 32-bit words. */
module Sha1Spec {
  import opened Blocks

  type word = bv32

  const SIZE: nat := 64

  datatype Regs = Regs(a: word, b: word, c: word, d: word, e: word)

  const START := Regs(0x67452301, 0xEFCDAB89, 0x98BADCFE, 0x10325476, 0xC3D2E1F0)

  /** Addition modulo 2^32. */
  function Add(x: word, y: word): word {
    x + y
  }

  function Xor4(a: word, b: word, c: word, d: word): word {
    a ^ b ^ c ^ d
  }

  /** Circular left shifts. */
  function Rotl1(x: word): word {
    (x << 1) | (x >> 31)
  }

  function Rotl5(x: word): word {
    (x << 5) | (x >> 27)
  }

  function Rotl30(x: word): word {
    (x << 30) | (x >> 2)
  }

  function Choose(x: word, y: word, z: word): word {
    (x & y) | (!x & z)
  }

  function Parity(x: word, y: word, z: word): word {
    x ^ y ^ z
  }

  function Majority(x: word, y: word, z: word): word {
    (x & y) | (x & z) | (y & z)
  }

  function F(t: nat, b: word, c: word, d: word): word {
    if t < 20 then Choose(b, c, d)
    else if t < 40 then Parity(b, c, d)
    else if t < 60 then Majority(b, c, d)
    else Parity(b, c, d)
  }

  function K(t: nat): word {
    if t < 20 then 0x5A827999 else if t < 40 then 0x6ED9EBA1 else if t < 60 then 0x8F1BBCDC else 0xCA62C1D6
  }

  function Join(a: bv8, b: bv8, c: bv8, d: bv8): word {
    ((a as word) << 24) | ((b as word) << 16) | ((c as word) << 8) | (d as word)
  }

  /** Four bytes as a word, most significant first. */
  function Pack(s: seq<byte>): word
    requires |s| == 4
  {
    Join(s[0] as bv8, s[1] as bv8, s[2] as bv8, s[3] as bv8)
  }

  function Octet(x: word): bv8 {
    (x & 0xFF) as bv8
  }

  function Unpack(x: word): (s: seq<byte>)
    ensures |s| == 4
  {
    [Octet(x >> 24) as byte, Octet(x >> 16) as byte, Octet(x >> 8) as byte, Octet(x) as byte]
  }

  function Schedule(block: seq<byte>, t: nat): word
    requires |block| == SIZE
  {
    if t < 16 then Pack(block[4 * t..4 * t + 4])
    else Extend(Schedule(block, t - 3), Schedule(block, t - 8), Schedule(block, t - 14), Schedule(block, t - 16))
  }

  function Extend(w3: word, w8: word, w14: word, w16: word): word {
    Rotl1(Xor4(w3, w8, w14, w16))
  }

  /** The five summands of section 7, grouped as the program groups them. */
  function Temp(v: Regs, t: nat, w: word): word {
    Add(v.e, Add(Add(Add(Rotl5(v.a), F(t, v.b, v.c, v.d)), K(t)), w))
  }

  function Round(v: Regs, t: nat, w: word): Regs {
    Regs(Temp(v, t, w), v.a, Rotl30(v.b), v.c, v.d)
  }

  function Rounds(v: Regs, block: seq<byte>, t: nat): Regs
    requires |block| == SIZE
  {
    if t == 0 then v else Round(Rounds(v, block, t - 1), t - 1, Schedule(block, t - 1))
  }

  function AddRegs(x: Regs, y: Regs): Regs {
    Regs(Add(x.a, y.a), Add(x.b, y.b), Add(x.c, y.c), Add(x.d, y.d), Add(x.e, y.e))
  }

  /** One block; total, so that it can be iterated. */
  function Compress(v: Regs, block: seq<byte>): Regs {
    if |block| == SIZE then AddRegs(v, Rounds(v, block, 80)) else v
  }

  ghost function Chain(data: seq<byte>): Regs {
    Fold(Compress, SIZE, START, data)
  }

  function Output(v: Regs): (s: seq<byte>)
    ensures |s| == 20
  {
    Unpack(v.a) + Unpack(v.b) + Unpack(v.c) + Unpack(v.d) + Unpack(v.e)
  }

  /** Section 4: the 64-bit length ends the last block. */
  function Padding(msg: seq<byte>): seq<byte> {
    Padded(msg, SIZE, BigEndian(8 * |msg|, 8))
  }

  ghost function Digest(msg: seq<byte>): (s: seq<byte>)
    ensures |s| == 20
  {
    Output(Chain(Padding(msg)))
  }
}
