/** Iterating a compression function over whole blocks, and the padding that makes blocks whole. */
module Blocks {

  newtype byte = x: int | 0 <= x < 256

  /** 2^32, where the programs' unsigned counters wrap. */
  const WRAP: nat := 0x1_0000_0000

  /** The chaining value after the whole blocks of data. */
  function Fold<S>(f: (S, seq<byte>) -> S, size: nat, start: S, data: seq<byte>): S
    requires size > 0
    decreases |data|
  {
    if |data| < size then start else Fold(f, size, f(start, data[..size]), data[size..])
  }

  predicate Whole(data: seq<byte>, size: nat)
    requires size > 0
    decreases |data|
  {
    data == [] || (|data| >= size && Whole(data[size..], size))
  }

  lemma {:induction false} FoldAppend<S>(f: (S, seq<byte>) -> S, size: nat, start: S, a: seq<byte>, b: seq<byte>)
    requires size > 0 && Whole(a, size)
    ensures Fold(f, size, start, a + b) == Fold(f, size, Fold(f, size, start, a), b)
    decreases |a|
  {
    if a == [] {
      assert a + b == b;
    } else {
      assert (a + b)[..size] == a[..size];
      assert (a + b)[size..] == a[size..] + b;
      FoldAppend(f, size, f(start, a[..size]), a[size..], b);
    }
  }

  lemma FoldOne<S>(f: (S, seq<byte>) -> S, size: nat, start: S, block: seq<byte>)
    requires |block| == size > 0
    ensures Whole(block, size) && Fold(f, size, start, block) == f(start, block)
  {
    assert block[size..] == [] && block[..size] == block;
  }

  lemma {:induction false} WholeAppend(a: seq<byte>, b: seq<byte>, size: nat)
    requires size > 0 && Whole(a, size) && Whole(b, size)
    ensures Whole(a + b, size)
    decreases |a|
  {
    if a == [] {
      assert a + b == b;
    } else {
      assert (a + b)[size..] == a[size..] + b;
      WholeAppend(a[size..], b, size);
    }
  }

  /** Bytes in n blocks, which the programs write as a shift of n. */
  function Span(n: nat, size: nat): nat {
    if n == 0 then 0 else Span(n - 1, size) + size
  }

  /** The programs' int; a value outside it is an overflow. */
  type int32 = x: int | -0x8000_0000 <= x < 0x8000_0000

  /** The most blocks whose offsets fit an int: 2^25 of 64 bytes, 2^24 of 128. */
  function MaxBlocks(size: nat): nat {
    if size == 64 then 0x200_0000 else 0x100_0000
  }

  lemma {:induction false} SpanOfSize(n: nat, size: nat)
    requires IsSize(size)
    ensures Span(n, size) == if size == 64 then 64 * n else 128 * n
    decreases n
  {
    if n > 0 {
      SpanOfSize(n - 1, size);
    }
  }

  /** The block offsets 0, 1, .. n - 1 times the size all fit an int exactly up to that many blocks. */
  lemma OffsetsFit(n: nat, size: nat)
    requires IsSize(size)
    ensures n <= MaxBlocks(size) <==> forall i: nat :: i < n ==> Span(i, size) < 0x8000_0000
  {
    if n <= MaxBlocks(size) {
      forall i: nat | i < n ensures Span(i, size) < 0x8000_0000 {
        SpanOfSize(i, size);
      }
    } else {
      SpanOfSize(n - 1, size);
      assert n - 1 < n && Span(n - 1, size) >= 0x8000_0000;
    }
  }

  lemma {:induction false} SpanGrows(m: nat, n: nat, size: nat)
    requires m <= n
    ensures Span(m, size) <= Span(n, size)
    decreases n
  {
    if m < n {
      SpanGrows(m, n - 1, size);
    }
  }

  lemma {:induction false} SpanOfQuotient(len: nat, size: nat)
    requires IsSize(size)
    ensures Span(len / size, size) + len % size == len
    decreases len
  {
    if len >= size {
      SpanOfQuotient(len - size, size);
    }
  }

  /** Block sizes of the hashes. */
  predicate IsSize(size: nat) {
    size == 64 || size == 128
  }

  lemma {:induction false} WholeLength(data: seq<byte>, size: nat)
    requires IsSize(size)
    ensures Whole(data, size) <==> |data| % size == 0
    decreases |data|
  {
    if |data| >= size {
      WholeLength(data[size..], size);
      ModDrop(|data|, size);
    }
  }

  lemma ModDrop(n: nat, size: nat)
    requires IsSize(size) && n >= size
    ensures (n - size) % size == n % size
  {
    assert size == 64 ==> (n - 64) % 64 == n % 64;
    assert size == 128 ==> (n - 128) % 128 == n % 128;
  }

  function Zeros(n: nat): (z: seq<byte>)
    ensures |z| == n && forall i :: 0 <= i < n ==> z[i] == 0
  {
    seq(n, _ => 0)
  }

  lemma WholeMod(q: nat, size: nat)
    requires IsSize(size)
    ensures (if size == 64 then 64 * q else 128 * q) % size == 0
  {
  }

  /** Zero bytes between the 0x80 byte and the length field. */
  function Gap(len: nat, size: nat, field: nat): (gap: nat)
    requires IsSize(size) && field < size
    ensures gap < size && (len + 1 + gap + field) % size == 0
  {
    var part := len % size;
    WholeMod(len / size + 1, size);
    WholeMod(len / size + 2, size);
    if part + 1 + field <= size then size - 1 - field - part else 2 * size - 1 - field - part
  }

  /** The message, a one bit, the fewest zeros, and a length field that ends a block. */
  function Padded(msg: seq<byte>, size: nat, field: seq<byte>): (p: seq<byte>)
    requires IsSize(size) && |field| < size
    ensures |p| == |msg| + 1 + Gap(|msg|, size, |field|) + |field|
    ensures Whole(p, size)
  {
    var p := msg + [0x80] + Zeros(Gap(|msg|, size, |field|)) + field;
    WholeLength(p, size);
    p
  }

  /** Equal paddings come from equally long length fields and, up to a block, equally long messages. */
  lemma PaddedSplits(a: seq<byte>, f: seq<byte>, b: seq<byte>, g: seq<byte>, size: nat)
    requires IsSize(size) && |f| == |g| < size && Padded(a, size, f) == Padded(b, size, g)
    ensures f == g && |a| < |b| + size && |b| < |a| + size && (|a| == |b| ==> a == b)
  {
    var p, q := Padded(a, size, f), Padded(b, size, g);
    assert f == p[|p| - |f|..] && g == q[|q| - |g|..];
    if |a| == |b| {
      assert a == p[..|a|] && b == q[..|b|];
    }
  }

  // ----- streaming ----------------------------------------------------------------------------------

  /** The message that a sequence of update calls hands over. */
  function Joint(chunks: seq<seq<byte>>): seq<byte> {
    if chunks == [] then [] else Joint(chunks[..|chunks| - 1]) + chunks[|chunks| - 1]
  }

  lemma JointNext(chunks: seq<seq<byte>>, i: nat)
    requires i < |chunks|
    ensures Joint(chunks[..i + 1]) == Joint(chunks[..i]) + chunks[i]
  {
    assert chunks[..i + 1][..i] == chunks[..i];
  }

  lemma JointNothing(a: seq<byte>, chunks: seq<seq<byte>>)
    ensures Joint(chunks[..0]) == [] && a + Joint(chunks[..0]) == a
  {
  }

  lemma JointAll(chunks: seq<seq<byte>>)
    ensures Joint(chunks[..|chunks|]) == Joint(chunks)
  {
    assert chunks[..|chunks|] == chunks;
  }

  /** The bytes that a call with the length n hands over; a negative length hands over none. */
  function Taken(input: seq<byte>, n: int): seq<byte>
    requires n <= |input|
  {
    if n <= 0 then [] else input[..n]
  }

  lemma TakenAll(input: seq<byte>)
    ensures Taken(input, |input|) == input == [] + Taken(input, |input|)
  {
  }

  lemma Associates(a: seq<byte>, b: seq<byte>, c: seq<byte>)
    ensures a + b + c == a + (b + c)
  {
  }

  lemma Regroup(done: seq<byte>, head: seq<byte>, rest: seq<byte>, n: nat)
    requires n <= |rest|
    ensures done + head + rest == done + (head + rest[..n]) + rest[n..]
  {
  }

  /** When all is whole blocks, no part of a block is left over. */
  lemma NothingLeft(done: seq<byte>, rest: seq<byte>, all: seq<byte>)
    requires Whole(done, 64) && |rest| < 64 && Whole(all, 64) && all == done + rest
    ensures done == all
  {
    WholeLength(done, 64);
    WholeLength(all, 64);
    assert |rest| == 0;
  }

  lemma PartOf(whole: nat, rest: nat, size: nat)
    requires IsSize(size) && whole % size == 0 && rest < size
    ensures (whole + rest) % size == rest
  {
  }

  lemma GapOfPart(whole: nat, rest: nat)
    requires whole % 64 == 0 && rest < 64
    ensures Gap(whole + rest, 64, 8) == if rest < 56 then 55 - rest else 119 - rest
  {
    PartOf(whole, rest, 64);
  }

  /** What is left in the buffer is the length of everything hashed modulo the block size. */
  lemma BufferedLength(done: seq<byte>, rest: seq<byte>, size: nat)
    requires IsSize(size) && Whole(done, size) && |rest| < size
    ensures |rest| == |done + rest| % size
  {
    WholeLength(done, size);
    PartOf(|done|, |rest|, size);
  }

  // ----- integers as bytes --------------------------------------------------------------------------

  function ByteOf(v: nat): byte {
    (v % 256) as byte
  }

  /** Multiples of 2^32 do not reach the counter. */
  lemma ModPlus(x: nat, k: nat)
    ensures (x + WRAP * k) % WRAP == x % WRAP
  {
  }

  lemma ModSum(x: nat, y: nat)
    ensures (x % WRAP + y) % WRAP == (x + y) % WRAP
  {
    assert x + y == x % WRAP + y + WRAP * (x / WRAP);
    ModPlus(x % WRAP + y, x / WRAP);
  }

  lemma TimesEight(x: nat)
    ensures x % WRAP * 8 % WRAP == 8 * x % WRAP
  {
    var q, r := x / WRAP, x % WRAP;
    assert 8 * x == 8 * r + WRAP * (8 * q);
    ModPlus(8 * r, 8 * q);
  }

  function Pow256(n: nat): nat {
    if n == 0 then 1 else 256 * Pow256(n - 1)
  }

  /** v modulo 256^n, most significant byte first. */
  function BigEndian(v: nat, n: nat): (s: seq<byte>)
    ensures |s| == n
  {
    if n == 0 then [] else BigEndian(v / 256, n - 1) + [ByteOf(v)]
  }

  /** v modulo 256^n, least significant byte first. */
  function LittleEndian(v: nat, n: nat): (s: seq<byte>)
    ensures |s| == n
  {
    if n == 0 then [] else [ByteOf(v)] + LittleEndian(v / 256, n - 1)
  }

  /** The four bytes that the programs take from a 32-bit number with shifts. */
  lemma BigEndianShifts(v: nat)
    ensures BigEndian(v, 4) == [ByteOf(v / 0x100_0000), ByteOf(v / 0x1_0000), ByteOf(v / 0x100), ByteOf(v)]
  {
    var v1, v2, v3 := v / 256, v / 256 / 256, v / 256 / 256 / 256;
    assert BigEndian(v3, 1) == [ByteOf(v3)];
    assert BigEndian(v2, 2) == BigEndian(v3, 1) + [ByteOf(v2)];
    assert BigEndian(v1, 3) == BigEndian(v2, 2) + [ByteOf(v1)];
    assert v2 == v / 0x1_0000 && v3 == v / 0x100_0000;
  }

  lemma ByteDrops(v: nat, x: nat)
    ensures (v + 256 * x) / 256 == v / 256 + x && ByteOf(v + 256 * x) == ByteOf(v)
  {
  }

  lemma PowTimes(q: nat, n: nat)
    requires n > 0
    ensures q * Pow256(n) == 256 * (q * Pow256(n - 1))
  {
  }

  /** Multiples of 256^n do not reach n bytes. */
  lemma {:induction false} BigEndianDrops(v: nat, q: nat, n: nat)
    ensures BigEndian(v + q * Pow256(n), n) == BigEndian(v, n)
    decreases n
  {
    hide ByteOf, Pow256;
    if n > 0 {
      PowTimes(q, n);
      ByteDrops(v, q * Pow256(n - 1));
      BigEndianDrops(v / 256, q, n - 1);
    }
  }

  /** Only the low 32 bits reach four bytes. */
  lemma BigEndianLow(v: nat)
    ensures BigEndian(v % WRAP, 4) == BigEndian(v, 4)
  {
    hide BigEndian;
    assert Pow256(4) == WRAP;
    BigEndianDrops(v % WRAP, v / WRAP, 4);
  }

  /** Eight bytes are two halves of four. */
  lemma BigEndianHalves(v: nat)
    ensures BigEndian(v, 8) == BigEndian(v / WRAP, 4) + BigEndian(v, 4)
  {
    hide BigEndian;
    BigEndianSplit(v, 4, 4);
    ShiftFour(v);
  }

  lemma ShiftFour(v: nat)
    ensures Shift256(v, 4) == v / WRAP
  {
    var v1, v2, v3 := v / 256, v / 256 / 256, v / 256 / 256 / 256;
    assert Shift256(v3, 1) == v3 / 256;
    assert Shift256(v2, 2) == Shift256(v3, 1);
    assert Shift256(v1, 3) == Shift256(v2, 2);
    assert v3 / 256 == v / WRAP;
  }

  /** v >> 8k. */
  function Shift256(v: nat, k: nat): nat {
    if k == 0 then v else Shift256(v / 256, k - 1)
  }

  lemma {:induction false} BigEndianSplit(v: nat, m: nat, k: nat)
    ensures BigEndian(v, m + k) == BigEndian(Shift256(v, k), m) + BigEndian(v, k)
    decreases k
  {
    if k > 0 {
      BigEndianSplit(v / 256, m, k - 1);
    }
  }

  /** Multiples of 256^n do not reach n bytes. */
  lemma {:induction false} LittleEndianDrops(v: nat, q: nat, n: nat)
    ensures LittleEndian(v + q * Pow256(n), n) == LittleEndian(v, n)
    decreases n
  {
    hide ByteOf, Pow256;
    if n > 0 {
      PowTimes(q, n);
      ByteDrops(v, q * Pow256(n - 1));
      LittleEndianDrops(v / 256, q, n - 1);
    }
  }

  lemma LittleEndianLow(v: nat)
    ensures LittleEndian(v % WRAP, 4) == LittleEndian(v, 4)
  {
    hide LittleEndian;
    assert Pow256(4) == WRAP;
    LittleEndianDrops(v % WRAP, v / WRAP, 4);
  }

  lemma {:induction false} LittleEndianSplit(v: nat, m: nat, k: nat)
    ensures LittleEndian(v, k + m) == LittleEndian(v, k) + LittleEndian(Shift256(v, k), m)
    decreases k
  {
    if k > 0 {
      LittleEndianSplit(v / 256, m, k - 1);
    }
  }

  lemma LittleEndianHalves(v: nat)
    ensures LittleEndian(v, 8) == LittleEndian(v, 4) + LittleEndian(v / WRAP, 4)
  {
    hide LittleEndian;
    LittleEndianSplit(v, 4, 4);
    ShiftFour(v);
  }

  lemma {:induction false} BigEndianInjective(u: nat, v: nat, n: nat)
    requires u < Pow256(n) && v < Pow256(n) && BigEndian(u, n) == BigEndian(v, n)
    ensures u == v
    decreases n
  {
    if n > 0 {
      var s, t := BigEndian(u / 256, n - 1), BigEndian(v / 256, n - 1);
      assert s == BigEndian(u, n)[..n - 1] && t == BigEndian(v, n)[..n - 1];
      assert ByteOf(u) == BigEndian(u, n)[n - 1] && ByteOf(v) == BigEndian(v, n)[n - 1];
      assert u % 256 == v % 256;
      BigEndianInjective(u / 256, v / 256, n - 1);
    }
  }

  lemma {:induction false} BigEndianZero(n: nat)
    ensures BigEndian(0, n) == Zeros(n)
    decreases n
  {
    if n > 0 {
      BigEndianZero(n - 1);
    }
  }

  /** A short number has a padded-out long form. */
  lemma {:induction false} BigEndianWidens(v: nat, n: nat, extra: nat)
    requires v < Pow256(n)
    ensures BigEndian(v, extra + n) == Zeros(extra) + BigEndian(v, n)
    decreases n
  {
    if n == 0 {
      BigEndianZero(extra);
    } else {
      BigEndianWidens(v / 256, n - 1, extra);
    }
  }
}
