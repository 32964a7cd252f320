/** RFC 1321: the block step of section 3.4, and its inverse for a fixed block. */
module Md5Spec {
  import opened Blocks

  type word = bv32

  const SIZE: nat := 64

  datatype Regs = Regs(a: word, b: word, c: word, d: word)

  const START := Regs(0x67452301, 0xefcdab89, 0x98badcfe, 0x10325476)

  // The sine table of section 3.4, by rounds.

  const SINES1: seq<word> := [
    0xd76aa478, 0xe8c7b756, 0x242070db, 0xc1bdceee, 0xf57c0faf, 0x4787c62a, 0xa8304613, 0xfd469501,
    0x698098d8, 0x8b44f7af, 0xffff5bb1, 0x895cd7be, 0x6b901122, 0xfd987193, 0xa679438e, 0x49b40821]

  const SINES2: seq<word> := [
    0xf61e2562, 0xc040b340, 0x265e5a51, 0xe9b6c7aa, 0xd62f105d, 0x02441453, 0xd8a1e681, 0xe7d3fbc8,
    0x21e1cde6, 0xc33707d6, 0xf4d50d87, 0x455a14ed, 0xa9e3e905, 0xfcefa3f8, 0x676f02d9, 0x8d2a4c8a]

  const SINES3: seq<word> := [
    0xfffa3942, 0x8771f681, 0x6d9d6122, 0xfde5380c, 0xa4beea44, 0x4bdecfa9, 0xf6bb4b60, 0xbebfbc70,
    0x289b7ec6, 0xeaa127fa, 0xd4ef3085, 0x04881d05, 0xd9d4d039, 0xe6db99e5, 0x1fa27cf8, 0xc4ac5665]

  const SINES4: seq<word> := [
    0xf4292244, 0x432aff97, 0xab9423a7, 0xfc93a039, 0x655b59c3, 0x8f0ccc92, 0xffeff47d, 0x85845dd1,
    0x6fa87e4f, 0xfe2ce6e0, 0xa3014314, 0x4e0811a1, 0xf7537e82, 0xbd3af235, 0x2ad7d2bb, 0xeb86d391]

  function T(t: nat): word
    requires t < 64
  {
    if t < 16 then SINES1[t] else if t < 32 then SINES2[t - 16] else if t < 48 then SINES3[t - 32] else SINES4[t - 48]
  }

  /** Arithmetic modulo 2^32. */
  function Add(x: word, y: word): word {
    x + y
  }

  function Sub(x: word, y: word): word {
    x - y
  }

  function Rotl(x: word, s: word): word
    requires s <= 32
  {
    (x << s) | (x >> (32 - s))
  }

  function Rotr(x: word, s: word): word
    requires s <= 32
  {
    (x >> s) | (x << (32 - s))
  }

  function Mix(t: nat, x: word, y: word, z: word): word {
    if t < 16 then (x & y) | (!x & z)
    else if t < 32 then (x & z) | (y & !z)
    else if t < 48 then x ^ y ^ z
    else y ^ (x | !z)
  }

  /** Which word of the block step t takes. */
  function Index(t: nat): (k: nat)
    ensures k < 16
  {
    (if t < 16 then t else if t < 32 then 5 * t + 1 else if t < 48 then 3 * t + 5 else 7 * t) % 16
  }

  /** How far step t rotates. */
  function Amount(t: nat): (s: word)
    ensures 0 < s < 32
  {
    var r := t % 4;
    if t < 16 then (if r == 0 then 7 else if r == 1 then 12 else if r == 2 then 17 else 22)
    else if t < 32 then (if r == 0 then 5 else if r == 1 then 9 else if r == 2 then 14 else 20)
    else if t < 48 then (if r == 0 then 4 else if r == 1 then 11 else if r == 2 then 16 else 23)
    else (if r == 0 then 6 else if r == 1 then 10 else if r == 2 then 15 else 21)
  }

  function Join(a: bv8, b: bv8, c: bv8, d: bv8): word {
    (a as word) | ((b as word) << 8) | ((c as word) << 16) | ((d as word) << 24)
  }

  /** Word k of the block, least significant byte first. */
  function Word(block: seq<byte>, k: nat): word
    requires |block| == SIZE && k < 16
  {
    Join(block[4 * k] as bv8, block[4 * k + 1] as bv8, block[4 * k + 2] as bv8, block[4 * k + 3] as bv8)
  }

  function Octet(x: word): byte {
    (x & 0xFF) as bv8 as byte
  }

  function Unpack(x: word): (s: seq<byte>)
    ensures |s| == 4
  {
    [Octet(x), Octet(x >> 8), Octet(x >> 16), Octet(x >> 24)]
  }

  /** a = b + ((a + f(b, c, d) + X[k] + T[i]) <<< s), after which each register takes the next one's role. */
  function Step(v: Regs, t: nat, x: word): Regs
    requires t < 64
  {
    Regs(v.d, Add(v.b, Rotl(Add(Add(Add(v.a, Mix(t, v.b, v.c, v.d)), x), T(t)), Amount(t))), v.b, v.c)
  }

  function Steps(v: Regs, block: seq<byte>, t: nat): Regs
    requires |block| == SIZE && t <= 64
  {
    if t == 0 then v else Step(Steps(v, block, t - 1), t - 1, Word(block, Index(t - 1)))
  }

  function AddRegs(x: Regs, y: Regs): Regs {
    Regs(Add(x.a, y.a), Add(x.b, y.b), Add(x.c, y.c), Add(x.d, y.d))
  }

  /** One block; total, so that it can be iterated. */
  function Compress(v: Regs, block: seq<byte>): Regs {
    if |block| == SIZE then AddRegs(v, Steps(v, block, 64)) else v
  }

  ghost function Chain(data: seq<byte>): Regs {
    Fold(Compress, SIZE, START, data)
  }

  function Output(v: Regs): (s: seq<byte>)
    ensures |s| == 16
  {
    Unpack(v.a) + Unpack(v.b) + Unpack(v.c) + Unpack(v.d)
  }

  /** Sections 3.1 and 3.2: the low 64 bits of the bit length, least significant byte first. */
  function Padding(msg: seq<byte>): seq<byte> {
    Padded(msg, SIZE, LittleEndian(8 * |msg|, 8))
  }

  ghost function Digest(msg: seq<byte>): seq<byte> {
    Output(Chain(Padding(msg)))
  }

  // ----- running a block backwards ------------------------------------------------------------------

  function Unstep(v: Regs, t: nat, x: word): Regs
    requires t < 64
  {
    var b, c, d := v.c, v.d, v.a;
    Regs(Sub(Sub(Sub(Rotr(Sub(v.b, b), Amount(t)), T(t)), x), Mix(t, b, c, d)), b, c, d)
  }

  function Unsteps(v: Regs, block: seq<byte>, t: nat): Regs
    requires |block| == SIZE && t <= 64
    decreases t
  {
    if t == 0 then v else Unsteps(Unstep(v, t - 1, Word(block, Index(t - 1))), block, t - 1)
  }

  lemma SubAdd(x: word, y: word)
    ensures Sub(Add(x, y), y) == x && Sub(Add(y, x), y) == x
  {
    assert Add(x, y) == x + y && Add(y, x) == x + y;
    assert Sub(x + y, y) == x;
  }

  lemma AddSub(x: word, y: word)
    ensures Add(Sub(x, y), y) == x && Add(y, Sub(x, y)) == x
  {
    assert Sub(x, y) == x - y;
    assert Add(x - y, y) == x;
    assert Add(y, x - y) == x;
  }

  function Shl(x: word, s: word): word
    requires s <= 32
  {
    x << s
  }

  function Shr(x: word, s: word): word
    requires s <= 32
  {
    x >> s
  }

  predicate Parts(p: word, q: word, x: word) {
    x == p | q
  }

  lemma PartsDecide(p: word, q: word, x: word, y: word)
    requires Parts(p, q, x) && Parts(p, q, y)
    ensures x == y
  {
  }

  lemma RotlDown(x: word, s: word)
    requires 0 < s < 32
    ensures Shr(Rotl(x, s), s) == Shr(Shl(x, s), s)
  {
  }

  lemma RotlUp(x: word, s: word)
    requires 0 < s < 32
    ensures Shl(Rotl(x, s), 32 - s) == Shl(Shr(x, 32 - s), 32 - s)
  {
  }

  lemma ShiftParts(x: word, s: word)
    requires 0 < s < 32
    ensures Parts(Shr(Shl(x, s), s), Shl(Shr(x, 32 - s), 32 - s), x)
  {
  }

  lemma RotrParts(x: word, s: word)
    requires 0 < s < 32
    ensures Parts(Shr(x, s), Shl(x, 32 - s), Rotr(x, s))
  {
  }

  lemma RotrRotl(x: word, s: word)
    requires 0 < s < 32
    ensures Rotr(Rotl(x, s), s) == x
  {
    hide *;
    var y := Rotl(x, s);
    RotlDown(x, s);
    RotlUp(x, s);
    ShiftParts(x, s);
    RotrParts(y, s);
    PartsDecide(Shr(y, s), Shl(y, 32 - s), x, Rotr(y, s));
  }

  lemma RotrIsRotl(x: word, s: word)
    requires 0 < s < 32
    ensures Rotr(x, s) == Rotl(x, 32 - s)
  {
  }

  lemma RotlRotr(x: word, s: word)
    requires 0 < s < 32
    ensures Rotl(Rotr(x, s), s) == x
  {
    hide *;
    RotrIsRotl(x, s);
    RotrIsRotl(Rotr(x, s), 32 - s);
    RotrRotl(x, 32 - s);
    assert 32 - (32 - s) == s;
  }

  lemma UnstepStep(v: Regs, t: nat, x: word)
    requires t < 64
    ensures Unstep(Step(v, t, x), t, x) == v
  {
    hide Add, Sub, Rotl, Rotr, Mix, Amount, T;
    var m, s := Mix(t, v.b, v.c, v.d), Amount(t);
    var u1 := Add(v.a, m);
    var u2 := Add(u1, x);
    var u3 := Add(u2, T(t));
    SubAdd(Rotl(u3, s), v.b);
    RotrRotl(u3, s);
    SubAdd(u2, T(t));
    SubAdd(u1, x);
    SubAdd(v.a, m);
  }

  lemma StepUnstep(v: Regs, t: nat, x: word)
    requires t < 64
    ensures Step(Unstep(v, t, x), t, x) == v
  {
    hide Add, Sub, Rotl, Rotr, Mix, Amount, T;
    var b, m, s := v.c, Mix(t, v.c, v.d, v.a), Amount(t);
    var u := Sub(v.b, b);
    var r := Rotr(u, s);
    AddSub(Sub(Sub(r, T(t)), x), m);
    AddSub(Sub(r, T(t)), x);
    AddSub(r, T(t));
    RotlRotr(u, s);
    AddSub(v.b, b);
  }

  /** The steps of a fixed block are a bijection: the inverse run undoes them, and they undo the inverse run. */
  lemma {:induction false} StepsAreBijective(v: Regs, block: seq<byte>, t: nat)
    requires |block| == SIZE && t <= 64
    ensures Unsteps(Steps(v, block, t), block, t) == v
    ensures Steps(Unsteps(v, block, t), block, t) == v
    decreases t
  {
    hide Step, Unstep, Word, Index;
    if t > 0 {
      var x := Word(block, Index(t - 1));
      UnstepStep(Steps(v, block, t - 1), t - 1, x);
      StepsAreBijective(v, block, t - 1);
      StepUnstep(v, t - 1, x);
      StepsAreBijective(Unstep(v, t - 1, x), block, t - 1);
    }
  }
}
