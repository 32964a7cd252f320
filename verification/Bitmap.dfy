/** The packed bit array: bit i lives in byte i / 8 at position i % 8. */
module Bitmap {

  const CODE_LENGTH: nat := 8

  function Mask(k: nat): bv8
    requires k < 8
  {
    match k
    case 0 => 0x01 case 1 => 0x02 case 2 => 0x04 case 3 => 0x08
    case 4 => 0x10 case 5 => 0x20 case 6 => 0x40 case _ => 0x80
  }

  predicate ByteBit(b: bv8, k: nat)
    requires k < 8
  {
    b & Mask(k) != 0
  }

  predicate Bit(mem: seq<bv8>, i: nat)
    requires i < 8 * |mem|
  {
    ByteBit(mem[i / 8], i % 8)
  }

  function WithBit(b: bv8, k: nat, v: bool): (r: bv8)
    requires k < 8
    ensures forall m :: 0 <= m < 8 ==> (ByteBit(r, m) <==> if m == k then v else ByteBit(b, m))
  {
    if v then b | Mask(k) else b & !Mask(k)
  }

  /** The array after a read-modify-write of the byte that holds bit i. */
  function StoreBit(mem: seq<bv8>, i: nat, v: bool): (r: seq<bv8>)
    requires i < 8 * |mem|
    ensures |r| == |mem|
  {
    mem[i / 8 := WithBit(mem[i / 8], i % 8, v)]
  }

  /** It changes one bit of the whole array. */
  lemma StoreBitBits(mem: seq<bv8>, i: nat, v: bool)
    requires i < 8 * |mem|
    ensures forall j :: 0 <= j < 8 * |mem| ==> (Bit(StoreBit(mem, i, v), j) <==> if j == i then v else Bit(mem, j))
  {
    forall j | 0 <= j < 8 * |mem|
      ensures Bit(StoreBit(mem, i, v), j) <==> if j == i then v else Bit(mem, j)
    {
      assert j == i <==> j / 8 == i / 8 && j % 8 == i % 8;
    }
  }

  method ChkIsPrime(isprime: array<bv8>, i: nat) returns (r: bool)
    requires i < 8 * isprime.Length
    ensures r == Bit(isprime[..], i)
  {
    var idx, bitpos := i / CODE_LENGTH, i % CODE_LENGTH;
    r := isprime[idx] & Mask(bitpos) > 0;
  }

  /** The single-threaded use of the test-and-set: nobody else holds the byte's lock. */
  method SetIsPrime(isprime: array<bv8>, i: nat, val: bv8)
    requires i < 8 * isprime.Length
    modifies isprime
    ensures isprime[..] == StoreBit(old(isprime[..]), i, val > 0)
  {
    var idx, bitpos := i / CODE_LENGTH, i % CODE_LENGTH;
    if val > 0 {
      isprime[idx] := isprime[idx] | Mask(bitpos);
    } else {
      isprime[idx] := isprime[idx] & !Mask(bitpos);
    }
  }
}
