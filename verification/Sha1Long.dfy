/** The program's arithmetic on unsigned long, of 32 or 64 bits, against 32-bit words. */
module Sha1Long {
  import opened Blocks
  import S = Sha1Spec

  type ulong = bv64

  /** The word an unsigned long stands for: its low 32 bits, whatever is above them. */
  function Low(x: ulong): S.word {
    (x & 0xFFFF_FFFF) as S.word
  }

  /** The result of an operation that may overflow, where unsigned long is 64 bits wide or not. */
  function Long(wide: bool, x: ulong): ulong {
    if wide then x else x & 0xFFFF_FFFF
  }

  function Sum(x: ulong, y: ulong): ulong {
    x + y
  }

  function Plus(wide: bool, x: ulong, y: ulong): ulong {
    Long(wide, Sum(x, y))
  }

  function Xor4(a: ulong, b: ulong, c: ulong, d: ulong): ulong {
    a ^ b ^ c ^ d
  }

  /** The macro S, for its three counts. */
  function Rotate1(wide: bool, x: ulong): ulong {
    Long(wide, x << 1) | ((x & 0xFFFF_FFFF) >> 31)
  }

  function Rotate5(wide: bool, x: ulong): ulong {
    Long(wide, x << 5) | ((x & 0xFFFF_FFFF) >> 27)
  }

  function Rotate30(wide: bool, x: ulong): ulong {
    Long(wide, x << 30) | ((x & 0xFFFF_FFFF) >> 2)
  }

  /** The macro F of each group of twenty rounds. */
  function Choose(x: ulong, y: ulong, z: ulong): ulong {
    z ^ (x & (y ^ z))
  }

  function Parity(x: ulong, y: ulong, z: ulong): ulong {
    x ^ y ^ z
  }

  function Majority(x: ulong, y: ulong, z: ulong): ulong {
    (x & y) | (z & (x | y))
  }

  function F(t: nat, x: ulong, y: ulong, z: ulong): ulong {
    if t < 20 then Choose(x, y, z)
    else if t < 40 then Parity(x, y, z)
    else if t < 60 then Majority(x, y, z)
    else Parity(x, y, z)
  }

  function K(t: nat): ulong {
    if t < 20 then 0x5A827999 else if t < 40 then 0x6ED9EBA1 else if t < 60 then 0x8F1BBCDC else 0xCA62C1D6
  }

  lemma LowLong(wide: bool, x: ulong)
    ensures Low(Long(wide, x)) == Low(x)
  {
  }

  function Up(x: ulong): ulong {
    x << 32
  }

  predicate Adds(x: ulong, y: ulong, z: ulong) {
    z == x + y
  }

  lemma AddsSum(x: ulong, y: ulong, z: ulong)
    requires Adds(x, y, z)
    ensures z == Sum(x, y)
  {
  }

  lemma ShlAdds(x: ulong, y: ulong)
    ensures Adds(x << 32, y << 32, (x + y) << 32)
  {
  }

  lemma UpIs(x: ulong)
    ensures Up(x) == x << 32
  {
  }

  lemma UpOfSum(x: ulong, y: ulong)
    ensures Up(Sum(x, y)) == (x + y) << 32
  {
  }

  lemma UpSum(x: ulong, y: ulong)
    ensures Up(Sum(x, y)) == Sum(Up(x), Up(y))
  {
    hide *;
    UpIs(x);
    UpIs(y);
    UpOfSum(x, y);
    ShlAdds(x, y);
    AddsSum(Up(x), Up(y), Up(Sum(x, y)));
  }

  lemma UpLow(x: ulong)
    ensures Up(Low(x) as ulong) == Up(x)
  {
  }

  lemma UpDecides(x: ulong, y: ulong)
    requires Up(x) == Up(y)
    ensures Low(x) == Low(y)
  {
  }

  /** Only the low halves of the operands reach the low half of a sum. */
  lemma LowSum(x: ulong, y: ulong)
    ensures Low(Sum(x, y)) == Low(Sum(Low(x) as ulong, Low(y) as ulong))
  {
    hide *;
    var a, b := Low(x) as ulong, Low(y) as ulong;
    UpLow(x);
    UpLow(y);
    UpSum(x, y);
    UpSum(a, b);
    UpDecides(Sum(x, y), Sum(a, b));
  }

  predicate IsLow(u: S.word, x: ulong) {
    u == Low(x)
  }

  lemma NarrowSum(u: S.word, v: S.word)
    ensures IsLow(S.Add(u, v), (u as ulong) + (v as ulong))
  {
  }

  lemma NarrowPlus(u: S.word, v: S.word)
    ensures Low(Sum(u as ulong, v as ulong)) == S.Add(u, v)
  {
    hide Low, S.Add;
    NarrowSum(u, v);
  }

  lemma LowPlus(wide: bool, x: ulong, y: ulong)
    ensures Low(Plus(wide, x, y)) == S.Add(Low(x), Low(y))
  {
    hide Low, Long, Sum, S.Add;
    LowLong(wide, Sum(x, y));
    LowSum(x, y);
    NarrowPlus(Low(x), Low(y));
  }

  lemma LowShift1(x: ulong)
    ensures Low(x << 1) == Low(x) << 1 && Low((x & 0xFFFF_FFFF) >> 31) == Low(x) >> 31
  {
  }

  lemma LowShift5(x: ulong)
    ensures Low(x << 5) == Low(x) << 5 && Low((x & 0xFFFF_FFFF) >> 27) == Low(x) >> 27
  {
  }

  lemma LowShift30(x: ulong)
    ensures Low(x << 30) == Low(x) << 30 && Low((x & 0xFFFF_FFFF) >> 2) == Low(x) >> 2
  {
  }

  lemma LowOr(x: ulong, y: ulong)
    ensures Low(x | y) == Low(x) | Low(y)
  {
  }

  lemma LowRotate1(wide: bool, x: ulong)
    ensures Low(Rotate1(wide, x)) == S.Rotl1(Low(x))
  {
    hide Low, Long;
    LowShift1(x);
    LowLong(wide, x << 1);
    LowOr(Long(wide, x << 1), (x & 0xFFFF_FFFF) >> 31);
  }

  lemma LowRotate5(wide: bool, x: ulong)
    ensures Low(Rotate5(wide, x)) == S.Rotl5(Low(x))
  {
    hide Low, Long;
    LowShift5(x);
    LowLong(wide, x << 5);
    LowOr(Long(wide, x << 5), (x & 0xFFFF_FFFF) >> 27);
  }

  lemma LowRotate30(wide: bool, x: ulong)
    ensures Low(Rotate30(wide, x)) == S.Rotl30(Low(x))
  {
    hide Low, Long;
    LowShift30(x);
    LowLong(wide, x << 30);
    LowOr(Long(wide, x << 30), (x & 0xFFFF_FFFF) >> 2);
  }

  lemma LowXor4(a: ulong, b: ulong, c: ulong, d: ulong)
    ensures Low(Xor4(a, b, c, d)) == S.Xor4(Low(a), Low(b), Low(c), Low(d))
  {
  }

  lemma LowChoose(x: ulong, y: ulong, z: ulong)
    ensures Low(Choose(x, y, z)) == S.Choose(Low(x), Low(y), Low(z))
  {
  }

  lemma LowParity(x: ulong, y: ulong, z: ulong)
    ensures Low(Parity(x, y, z)) == S.Parity(Low(x), Low(y), Low(z))
  {
  }

  lemma LowMajority(x: ulong, y: ulong, z: ulong)
    ensures Low(Majority(x, y, z)) == S.Majority(Low(x), Low(y), Low(z))
  {
  }

  /** The program's round functions are the standard's. */
  lemma LowF(t: nat, x: ulong, y: ulong, z: ulong)
    ensures Low(F(t, x, y, z)) == S.F(t, Low(x), Low(y), Low(z))
  {
    hide Low, Choose, Parity, Majority, S.Choose, S.Parity, S.Majority;
    LowChoose(x, y, z);
    LowMajority(x, y, z);
    LowParity(x, y, z);
  }

  lemma LowK(t: nat)
    ensures Low(K(t)) == S.K(t)
  {
  }

  function Join(a: bv8, b: bv8, c: bv8, d: bv8): ulong {
    ((a as ulong) << 24) | ((b as ulong) << 16) | ((c as ulong) << 8) | (d as ulong)
  }

  /** GET_ULONG_BE. */
  function Get(s: seq<byte>): ulong
    requires |s| == 4
  {
    Join(s[0] as bv8, s[1] as bv8, s[2] as bv8, s[3] as bv8)
  }

  /** The cast to unsigned char. */
  function Octet(x: ulong): bv8 {
    (x & 0xFF) as bv8
  }

  /** PUT_ULONG_BE. */
  function Put(x: ulong): (s: seq<byte>)
    ensures |s| == 4
  {
    [Octet(x >> 24) as byte, Octet(x >> 16) as byte, Octet(x >> 8) as byte, Octet(x) as byte]
  }

  lemma LowBytes(a: bv8, b: bv8, c: bv8, d: bv8)
    ensures Low(Join(a, b, c, d)) == S.Join(a, b, c, d)
  {
  }

  lemma LowGet(s: seq<byte>)
    requires |s| == 4
    ensures Low(Get(s)) == S.Pack(s)
  {
    hide Low, Join, S.Join;
    LowBytes(s[0] as bv8, s[1] as bv8, s[2] as bv8, s[3] as bv8);
  }

  lemma OctetsOfLow(x: ulong)
    ensures Octet(x) == S.Octet(Low(x)) && Octet(x >> 8) == S.Octet(Low(x) >> 8)
    ensures Octet(x >> 16) == S.Octet(Low(x) >> 16) && Octet(x >> 24) == S.Octet(Low(x) >> 24)
  {
  }

  lemma PutLow(x: ulong)
    ensures Put(x) == S.Unpack(Low(x))
  {
    hide Low, Octet, S.Octet;
    OctetsOfLow(x);
  }
}
