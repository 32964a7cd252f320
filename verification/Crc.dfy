/** The slow and the table-driven CRC of one parameter set. */
module Crc {
  import opened CrcBits

  /** Width, generator without its top bit, initial register, final XOR, and the two reflections. */
  datatype Params = Params(width: nat, poly: Bits, init: Bits, finalXor: Bits,
                           reflectData: bool, reflectRemainder: bool)
  {
    ghost predicate Valid() {
      8 <= width <= 32 && width % 8 == 0 && |poly| == |init| == |finalXor| == width
    }

    ghost predicate Odd()
      requires Valid()
    {
      poly[width - 1]
    }
  }

  /** The low `width` bits of v, most significant first. */
  function Word(v: nat, width: nat): (r: Bits)
    ensures |r| == width
  {
    if width == 0 then [] else Word(v / 2, width - 1) + [v % 2 == 1]
  }

  function Value(b: Bits): nat
    decreases |b|
  {
    if b == [] then 0 else 2 * Value(b[..|b| - 1]) + (if b[|b| - 1] then 1 else 0)
  }

  /** A standard, by its numbers. */
  datatype Numbers = Numbers(width: nat, poly: nat, init: nat, finalXor: nat, reflect: bool)

  const CRC_CCITT := Numbers(16, 0x1021, 0xFFFF, 0x0000, false)
  const CRC16 := Numbers(16, 0x8005, 0x0000, 0x0000, true)
  const CRC32 := Numbers(32, 0x04C11DB7, 0xFFFFFFFF, 0xFFFFFFFF, true)

  function Standard(n: Numbers): Params {
    Params(n.width, Word(n.poly, n.width), Word(n.init, n.width), Word(n.finalXor, n.width), n.reflect, n.reflect)
  }

  lemma OddNumbers(n: Numbers)
    requires n.width in {16, 32} && n.poly % 2 == 1
    ensures Standard(n).Valid() && Standard(n).Odd()
  {
  }

  lemma StandardsAreValid(n: Numbers)
    requires n == CRC_CCITT || n == CRC16 || n == CRC32
    ensures Standard(n).Valid() && Standard(n).Odd()
  {
    OddNumbers(n);
  }

  // ----- what both programs compute ----------------------------------------------------------------

  function DataByte(p: Params, b: Byte): Byte {
    if p.reflectData then Reversed(b) else b
  }

  /** The bits of a message in the order they are divided. */
  function Stream(p: Params, msg: seq<Byte>): (s: Bits)
    ensures |s| == 8 * |msg|
    decreases |msg|
  {
    if msg == [] then [] else DataByte(p, msg[0]) + Stream(p, msg[1..])
  }

  function Finish(p: Params, r: Bits): (s: Bits)
    requires p.Valid() && |r| == p.width
    ensures |s| == p.width
  {
    Xor(if p.reflectRemainder then Reversed(r) else r, p.finalXor)
  }

  /** Bit-serial long division of the message stream. */
  function CrcOf(p: Params, msg: seq<Byte>): Bits
    requires p.Valid()
  {
    Finish(p, Feed(p.poly, p.init, Stream(p, msg)))
  }

  /** One byte of either program: eight division steps of the register XOR the placed byte. */
  lemma ByteIsEightBits(p: Params, r: Bits, msg: seq<Byte>)
    requires p.Valid() && |r| == p.width && msg != []
    ensures Feed(p.poly, r, Stream(p, msg)) ==
            Feed(p.poly, Steps(p.poly, Xor(r, Place(DataByte(p, msg[0]), p.width)), BYTE), Stream(p, msg[1..]))
  {
    FeedAppend(p.poly, r, DataByte(p, msg[0]), Stream(p, msg[1..]));
    FeedIsSteps(p.poly, r, DataByte(p, msg[0]));
  }

  // ----- the program -----------------------------------------------------------------------------------

  /** data >> n. */
  function Shr(data: Bits, n: nat): (r: Bits)
    requires n <= |data|
    ensures |r| == |data| && forall i :: 0 <= i < |data| ==> r[i] == (n <= i && data[i - n])
  {
    Zeros(n) + data[..|data| - n]
  }

  /** The reflection of the low nBits, as far as the lowest `bit` of them are concerned. */
  function ReflectedLow(data: Bits, nBits: nat, bit: nat): (r: Bits)
    requires |data| == 32 && bit <= nBits <= 32
    ensures |r| == 32
    ensures forall i :: 0 <= i < 32 ==> r[i] == (32 - nBits <= i < 32 - nBits + bit && data[63 - nBits - i])
  {
    seq(32, i requires 0 <= i < 32 => 32 - nBits <= i < 32 - nBits + bit && data[63 - nBits - i])
  }

  lemma ReflectStep(data: Bits, nBits: nat, bit: nat)
    requires |data| == 32 && bit < nBits <= 32
    ensures var r := ReflectedLow(data, nBits, bit);
      ReflectedLow(data, nBits, bit + 1) == if Shr(data, bit)[31] then r[32 - nBits + bit := true] else r
  {
    assert Shr(data, bit)[31] == data[31 - bit];
  }

  lemma ShrStep(data: Bits, n: nat)
    requires n < |data|
    ensures Shr(Shr(data, n), 1) == Shr(data, n + 1)
  {
  }

  /** Reflects the low nBits of a 32-bit unsigned long; the higher bits are dropped. */
  method Reflect(data: Bits, nBits: nat) returns (reflection: Bits)
    requires |data| == 32 && nBits <= 32
    ensures reflection == ReflectedLow(data, nBits, nBits)
  {
    reflection := Zeros(32);
    assert reflection == ReflectedLow(data, nBits, 0);
    var d := data;
    assert d == Shr(data, 0);
    for bit := 0 to nBits
      invariant d == Shr(data, bit)
      invariant reflection == ReflectedLow(data, nBits, bit)
    {
      ReflectStep(data, nBits, bit);
      ShrStep(data, bit);
      if d[31] {
        reflection := reflection[31 - (nBits - 1 - bit) := true];
      }
      d := Shr(d, 1);
    }
  }

  method ReflectData(p: Params, b: Byte) returns (r: Byte)
    ensures r == DataByte(p, b)
  {
    if p.reflectData {
      var long := Reflect(Zeros(24) + b, 8);
      r := long[24..];
    } else {
      r := b;
    }
  }

  method ReflectRemainder(p: Params, remainder: Bits) returns (r: Bits)
    requires p.Valid() && |remainder| == p.width
    ensures r == if p.reflectRemainder then Reversed(remainder) else remainder
  {
    if p.reflectRemainder {
      var long := Reflect(Zeros(32 - p.width) + remainder, p.width);
      r := long[32 - p.width..];
    } else {
      r := remainder;
    }
  }

  /** One turn of the division loop. */
  method DivideBit(p: Params, start: Bits) returns (remainder: Bits)
    requires p.Valid() && |start| == p.width
    ensures remainder == BitStep(p.poly, start)
  {
    if start[0] {
      remainder := Xor(Shl(start, 1), p.poly);
    } else {
      remainder := Shl(start, 1);
    }
  }

  /** The division loop, shared by both programs, which make eight turns. */
  method Divide(p: Params, start: Bits, turns: nat) returns (remainder: Bits)
    requires p.Valid() && |start| == p.width
    ensures remainder == Steps(p.poly, start, turns)
  {
    remainder := start;
    var bit := turns;
    while bit > 0
      invariant |remainder| == p.width
      invariant Steps(p.poly, remainder, bit) == Steps(p.poly, start, turns)
    {
      remainder := DivideBit(p, remainder);
      bit := bit - 1;
    }
  }

  method CrcSlow(p: Params, message: seq<Byte>) returns (r: Bits)
    requires p.Valid()
    ensures r == CrcOf(p, message)
  {
    var remainder := p.init;
    for byte := 0 to |message|
      invariant |remainder| == p.width
      invariant Feed(p.poly, remainder, Stream(p, message[byte..])) == Feed(p.poly, p.init, Stream(p, message))
    {
      ByteIsEightBits(p, remainder, message[byte..]);
      var data := ReflectData(p, message[byte]);
      remainder := Xor(remainder, Place(data, p.width));
      remainder := Divide(p, remainder, BYTE);
    }
    var reflected := ReflectRemainder(p, remainder);
    r := Xor(reflected, p.finalXor);
  }

  /** What the division loop makes of a dividend followed by zeros. */
  function Entry(p: Params, dividend: nat, turns: nat): Bits
    requires p.Valid()
  {
    Steps(p.poly, Place(Word(dividend, BYTE), p.width), turns)
  }

  ghost predicate Filled(p: Params, table: seq<Bits>, turns: nat)
    requires p.Valid()
  {
    |table| == 256 && forall d :: 0 <= d < 256 ==> table[d] == Entry(p, d, turns)
  }

  ghost predicate TableBuilt(p: Params, table: seq<Bits>)
    requires p.Valid()
  {
    Filled(p, table, BYTE)
  }

  method FillTable(p: Params, crcTable: array<Bits>, turns: nat)
    requires p.Valid() && crcTable.Length == 256
    modifies crcTable
    ensures Filled(p, crcTable[..], turns)
  {
    for dividend := 0 to 256
      invariant forall d :: 0 <= d < dividend ==> crcTable[d] == Entry(p, d, turns)
    {
      var remainder := Divide(p, Place(Word(dividend, BYTE), p.width), turns);
      crcTable[dividend] := remainder;
    }
  }

  method CrcInit(p: Params, crcTable: array<Bits>)
    requires p.Valid() && crcTable.Length == 256
    modifies crcTable
    ensures TableBuilt(p, crcTable[..])
  {
    FillTable(p, crcTable, BYTE);
  }

  lemma {:induction false} WordOfValue(b: Bits)
    ensures Word(Value(b), |b|) == b
    decreases |b|
  {
    if b != [] {
      WordOfValue(b[..|b| - 1]);
    }
  }

  lemma ValueOfByte(b: Byte)
    ensures Value(b) < 256 && Word(Value(b), BYTE) == b
  {
    WordOfValue(b);
    ValueBound(b, BYTE, 256);
  }

  lemma {:induction false} ValueBound(b: Bits, n: nat, bound: nat)
    requires |b| == n && bound == Exp2(n)
    ensures Value(b) < bound
    decreases n
  {
    if n > 0 {
      ValueBound(b[..n - 1], n - 1, Exp2(n - 1));
    }
  }

  function Exp2(n: nat): nat {
    if n == 0 then 1 else 2 * Exp2(n - 1)
  }

  lemma TableEntry(p: Params, table: seq<Bits>, b: Byte, turns: nat)
    requires p.Valid() && Filled(p, table, turns)
    ensures Value(b) < 256 && table[Value(b)] == Steps(p.poly, Place(b, p.width), turns)
  {
    ValueOfByte(b);
    assert table[Value(b)] == Entry(p, Value(b), turns);
  }

  lemma TopByte(r: Bits, d: Byte)
    requires |r| >= 8
    ensures Xor(r, Place(d, |r|))[..8] == Xor(d, r[..8])
    ensures Shl(Xor(r, Place(d, |r|)), 8) == Shl(r, 8)
  {
  }

  /** One table lookup does the work of eight division steps. */
  lemma LookupIsDivision(p: Params, table: seq<Bits>, r: Bits, d: Byte)
    requires p.Valid() && TableBuilt(p, table) && |r| == p.width
    ensures Value(Xor(d, r[..8])) < 256
    ensures Xor(table[Value(Xor(d, r[..8]))], Shl(r, 8)) == Steps(p.poly, Xor(r, Place(d, p.width)), BYTE)
  {
    var x := Xor(r, Place(d, p.width));
    EightSteps(p.poly, x);
    TopByte(r, d);
    TableEntry(p, table, x[..8], BYTE);
  }

  /** The body of the fast loop. */
  method FastByte(p: Params, crcTable: array<Bits>, start: Bits, b: Byte) returns (remainder: Bits)
    requires p.Valid() && TableBuilt(p, crcTable[..]) && |start| == p.width
    ensures remainder == Steps(p.poly, Xor(start, Place(DataByte(p, b), p.width)), BYTE)
  {
    var reflected := ReflectData(p, b);
    LookupIsDivision(p, crcTable[..], start, reflected);
    var data := Xor(reflected, start[..8]);
    remainder := Xor(crcTable[Value(data)], Shl(start, 8));
  }

  method CrcFast(p: Params, crcTable: array<Bits>, message: seq<Byte>) returns (r: Bits)
    requires p.Valid() && TableBuilt(p, crcTable[..])
    ensures r == CrcOf(p, message)
  {
    var remainder := p.init;
    for byte := 0 to |message|
      invariant |remainder| == p.width
      invariant Feed(p.poly, remainder, Stream(p, message[byte..])) == Feed(p.poly, p.init, Stream(p, message))
    {
      ByteIsEightBits(p, remainder, message[byte..]);
      remainder := FastByte(p, crcTable, remainder, message[byte]);
    }
    var reflected := ReflectRemainder(p, remainder);
    r := Xor(reflected, p.finalXor);
  }

  /** crcInit followed by crcFast computes what crcSlow computes. */
  method FastEqualsSlow(p: Params, message: seq<Byte>) returns (fast: Bits, slow: Bits)
    requires p.Valid()
    ensures fast == slow == CrcOf(p, message)
  {
    var crcTable := new Bits[256];
    CrcInit(p, crcTable);
    fast := CrcFast(p, crcTable, message);
    slow := CrcSlow(p, message);
  }

  // ----- bursts --------------------------------------------------------------------------------------------

  lemma ReversedInjective(a: Bits, b: Bits)
    requires Reversed(a) == Reversed(b)
    ensures a == b
  {
    assert |a| == |Reversed(a)| == |b|;
    forall i | 0 <= i < |a| ensures a[i] == b[i] {
      assert Reversed(a)[|a| - 1 - i] == Reversed(b)[|a| - 1 - i];
    }
  }

  lemma AppendInjective(a: Bits, x: Bits, b: Bits, y: Bits)
    requires |a| == |b| && a + x == b + y
    ensures a == b && x == y
  {
    assert a == (a + x)[..|a|] && b == (b + y)[..|b|];
    assert x == (a + x)[|a|..] && y == (b + y)[|b|..];
  }

  lemma {:induction false} StreamInjective(p: Params, a: seq<Byte>, b: seq<Byte>)
    requires Stream(p, a) == Stream(p, b)
    ensures a == b
    decreases |a|
  {
    if a != [] && b != [] {
      AppendInjective(DataByte(p, a[0]), Stream(p, a[1..]), DataByte(p, b[0]), Stream(p, b[1..]));
      if p.reflectData {
        ReversedInjective(a[0], b[0]);
      }
      StreamInjective(p, a[1..], b[1..]);
      assert a == [a[0]] + a[1..] && b == [b[0]] + b[1..];
    }
  }

  lemma {:induction false} StreamAppend(p: Params, a: seq<Byte>, b: seq<Byte>)
    ensures Stream(p, a + b) == Stream(p, a) + Stream(p, b)
    decreases |a|
  {
    if a == [] {
      assert a + b == b;
    } else {
      assert (a + b)[1..] == a[1..] + b;
      StreamAppend(p, a[1..], b);
    }
  }

  /** Every sequence of whole bytes is the stream of some message. */
  lemma {:induction false} StreamOnto(p: Params, s: Bits, n: nat) returns (msg: seq<Byte>)
    requires |s| == 8 * n
    ensures |msg| == n && Stream(p, msg) == s
    decreases n
  {
    if n == 0 {
      msg := [];
    } else {
      var rest := StreamOnto(p, s[8..], n - 1);
      var b: Byte := if p.reflectData then Reversed(s[..8]) else s[..8];
      assert DataByte(p, b) == s[..8];
      msg := [b] + rest;
      assert msg[1..] == rest && s == s[..8] + s[8..];
    }
  }

  lemma FinishInjective(p: Params, r: Bits, s: Bits)
    requires p.Valid() && |r| == |s| == p.width && Finish(p, r) == Finish(p, s)
    ensures r == s
  {
    var a, b := if p.reflectRemainder then Reversed(r) else r, if p.reflectRemainder then Reversed(s) else s;
    assert Xor(a, p.finalXor) == Xor(p.finalXor, a) && Xor(b, p.finalXor) == Xor(p.finalXor, b);
    XorCancels(p.finalXor, a, b);
    if p.reflectRemainder {
      ReversedInjective(r, s);
    }
  }

  /** An odd generator detects every change confined to `width` consecutive stream bits, at any bit offset. */
  lemma BurstDetected(p: Params, m1: seq<Byte>, m2: seq<Byte>, before: Bits, u: Bits, v: Bits, after: Bits)
    requires p.Valid() && p.Odd() && |u| == |v| <= p.width
    requires Stream(p, m1) == before + u + after && Stream(p, m2) == before + v + after && m1 != m2
    ensures CrcOf(p, m1) != CrcOf(p, m2)
  {
    hide Feed, Finish, Stream;
    FeedThree(p.poly, p.init, before, u, after);
    FeedThree(p.poly, p.init, before, v, after);
    var r := Feed(p.poly, p.init, before);
    if CrcOf(p, m1) == CrcOf(p, m2) {
      FinishInjective(p, Feed(p.poly, p.init, before + u + after), Feed(p.poly, p.init, before + v + after));
      FeedInjective(p.poly, Feed(p.poly, r, u), Feed(p.poly, r, v), after);
      WindowInjective(p.poly, r, u, v);
      StreamInjective(p, m1, m2);
    }
  }

  lemma FeedThree(poly: Bits, r: Bits, before: Bits, u: Bits, after: Bits)
    requires |r| == |poly| > 0
    ensures Feed(poly, r, before + u + after) == Feed(poly, Feed(poly, Feed(poly, r, before), u), after)
  {
    hide Feed;
    FeedAppend(poly, r, before + u, after);
    FeedAppend(poly, r, before, u);
  }

  lemma StreamThree(p: Params, before: seq<Byte>, x: seq<Byte>, after: seq<Byte>)
    ensures Stream(p, before + x + after) == Stream(p, before) + Stream(p, x) + Stream(p, after)
  {
    hide Stream;
    StreamAppend(p, before + x, after);
    StreamAppend(p, before, x);
  }

  /** A window of width / 8 bytes changes under the eyes of the CRC. */
  ghost predicate Detects(p: Params, before: seq<Byte>, x: seq<Byte>, y: seq<Byte>, after: seq<Byte>)
    requires p.Valid()
  {
    x != y && |x| == |y| == p.width / 8 ==> CrcOf(p, before + x + after) != CrcOf(p, before + y + after)
  }

  /** An even generator misses a change of width / 8 bytes at every position of every message. */
  lemma EvenMisses(p: Params, before: seq<Byte>, after: seq<Byte>) returns (x: seq<Byte>, y: seq<Byte>)
    requires p.Valid() && !p.Odd()
    ensures !Detects(p, before, x, y, after)
  {
    var r := Feed(p.poly, p.init, Stream(p, before));
    var u, v := EvenMerges(p.poly, r);
    x := StreamOnto(p, u, p.width / 8);
    y := StreamOnto(p, v, p.width / 8);
    StreamThree(p, before, x, after);
    StreamThree(p, before, y, after);
    FeedThree(p.poly, p.init, Stream(p, before), u, Stream(p, after));
    FeedThree(p.poly, p.init, Stream(p, before), v, Stream(p, after));
  }

  /** Changes within width / 8 bytes are all detected exactly when the generator is odd. */
  lemma BurstGuarantee(p: Params)
    requires p.Valid()
    ensures p.Odd() <==> forall before, x, y, after :: Detects(p, before, x, y, after)
  {
    if p.Odd() {
      forall before: seq<Byte>, x: seq<Byte>, y: seq<Byte>, after: seq<Byte> | x != y && |x| == |y| == p.width / 8
        ensures Detects(p, before, x, y, after)
      {
        StreamThree(p, before, x, after);
        StreamThree(p, before, y, after);
        MiddleDiffers(before, x, y, after);
        BurstDetected(p, before + x + after, before + y + after,
                      Stream(p, before), Stream(p, x), Stream(p, y), Stream(p, after));
      }
    } else {
      var x, y := EvenMisses(p, [], []);
    }
  }

  lemma MiddleDiffers(before: seq<Byte>, x: seq<Byte>, y: seq<Byte>, after: seq<Byte>)
    requires |x| == |y| && x != y
    ensures before + x + after != before + y + after
  {
    var i :| 0 <= i < |x| && x[i] != y[i];
    assert (before + x + after)[|before| + i] != (before + y + after)[|before| + i];
  }
}
