/** A 64-bit memory word as the eight bytes it occupies. Loads and stores copy the bytes;
    XOR acts on each byte by itself. */
module Words {

  type Word = b: seq<bv8> | |b| == 8 witness [0, 0, 0, 0, 0, 0, 0, 0]

  const ZERO: Word := [0, 0, 0, 0, 0, 0, 0, 0]
  const ALL_ONES: Word := [0xFF, 0xFF, 0xFF, 0xFF, 0xFF, 0xFF, 0xFF, 0xFF]

  function Xor(a: Word, b: Word): Word {
    seq(8, i requires 0 <= i < 8 => a[i] ^ b[i])
  }

  lemma ByteXor(a: bv8, b: bv8, c: bv8)
    ensures (a ^ b) ^ c == (a ^ c) ^ b
    ensures a ^ b == 0 <==> a == b
    ensures 0 ^ a == a
  {
  }

  lemma XorSwap(a: Word, b: Word, c: Word)
    ensures Xor(Xor(a, b), c) == Xor(Xor(a, c), b)
  {
    forall i | 0 <= i < 8 ensures Xor(Xor(a, b), c)[i] == Xor(Xor(a, c), b)[i] {
      ByteXor(a[i], b[i], c[i]);
    }
  }

  lemma XorIsZero(a: Word, b: Word)
    ensures Xor(a, b) == ZERO <==> a == b
  {
    forall i | 0 <= i < 8 ensures Xor(a, b)[i] == 0 <==> a[i] == b[i] {
      ByteXor(a[i], b[i], 0);
    }
    if Xor(a, b) == ZERO {
      forall i | 0 <= i < 8 ensures a[i] == b[i] {
        assert Xor(a, b)[i] == ZERO[i];
      }
    }
  }

  lemma ByteCancels(a: bv8, b: bv8, c: bv8)
    ensures a ^ c == b ^ c <==> a == b
  {
  }

  lemma XorCommutes(a: Word, b: Word)
    ensures Xor(a, b) == Xor(b, a)
  {
  }

  lemma XorCancels(a: Word, b: Word, c: Word)
    ensures Xor(a, c) == Xor(b, c) <==> a == b
  {
    if Xor(a, c) == Xor(b, c) {
      forall i | 0 <= i < 8 ensures a[i] == b[i] {
        assert Xor(a, c)[i] == Xor(b, c)[i];
        ByteCancels(a[i], b[i], c[i]);
      }
    }
  }

  lemma ZeroXor(a: Word)
    ensures Xor(ZERO, a) == a
  {
    forall i | 0 <= i < 8 ensures Xor(ZERO, a)[i] == a[i] {
      ByteXor(a[i], 0, 0);
    }
  }

  // ----- the word as a number -----------------------------------------------------------------

  /** The value of the word on a little-endian machine. */
  function Value(b: Word): bv64 {
    (b[0] as bv64) | (b[1] as bv64 << 8) | (b[2] as bv64 << 16) | (b[3] as bv64 << 24) |
    (b[4] as bv64 << 32) | (b[5] as bv64 << 40) | (b[6] as bv64 << 48) | (b[7] as bv64 << 56)
  }

  /** Bytewise XOR is the XOR of the 64-bit numbers. */
  lemma XorOfValues(a: Word, b: Word)
    ensures Value(Xor(a, b)) == Value(a) ^ Value(b)
  {
  }
}
