/** The two-word byte counter of SHA-1, on 32- or 64-bit unsigned longs. */
module Sha1Count {
  import opened Blocks

  const WRAP2: nat := 0x1_0000_0000_0000_0000

  /** How far an unsigned long counts. */
  function LongSize(wide: bool): nat {
    if wide then WRAP2 else WRAP
  }

  /** The two words that count n bytes. */
  predicate Counts(wide: bool, total0: nat, total1: nat, n: nat) {
    total0 == n % WRAP && total1 == n / WRAP % LongSize(wide)
  }

  /** The carry test of the update keeps the count. */
  lemma CountCarries(wide: bool, total0: nat, total1: nat, n: nat, more: nat)
    requires Counts(wide, total0, total1, n) && more < WRAP
    ensures var t0 := (total0 + more) % WRAP;
      Counts(wide, t0, if t0 < more then (total1 + 1) % LongSize(wide) else total1, n + more)
  {
    Carry(n, more);
    Successor(n / WRAP, LongSize(wide));
  }

  lemma Carry(n: nat, more: nat)
    requires more < WRAP
    ensures (n % WRAP + more) % WRAP == (n + more) % WRAP
    ensures (n + more) / WRAP == n / WRAP + (if (n + more) % WRAP < more then 1 else 0)
  {
  }

  lemma Successor(x: nat, size: nat)
    requires size == WRAP || size == WRAP2
    ensures (x % size + 1) % size == (x + 1) % size
  {
  }

  /** (total[0] >> 29) | (total[1] << 3); the two have no bit in common. */
  function High(wide: bool, total0: nat, total1: nat): nat {
    total0 / 0x2000_0000 + total1 * 8 % LongSize(wide)
  }

  /** The length field written from the two words is the 64-bit count of bits. */
  lemma LengthField(wide: bool, total0: nat, total1: nat, n: nat)
    requires Counts(wide, total0, total1, n)
    ensures BigEndian(High(wide, total0, total1), 4) + BigEndian(total0 * 8 % LongSize(wide), 4) == BigEndian(8 * n, 8)
  {
    hide BigEndian;
    BigEndianHalves(8 * n);
    HighWord(wide, n / WRAP, n % WRAP, n);
    LowWord(wide, n / WRAP, n % WRAP, n);
    BigEndianLow(High(wide, total0, total1));
    BigEndianLow(8 * n / WRAP);
    BigEndianLow(total0 * 8 % LongSize(wide));
    BigEndianLow(8 * n);
  }

  lemma HighWord(wide: bool, q: nat, r: nat, n: nat)
    requires n == WRAP * q + r && r < WRAP
    ensures High(wide, r, q % LongSize(wide)) % WRAP == 8 * n / WRAP % WRAP
  {
    var d, m := r / 0x2000_0000, r % 0x2000_0000;
    DivIs(8 * n, 8 * q + d, 8 * m);
    EightTimes(wide, q);
    WrapAdds(q % LongSize(wide) * 8 % LongSize(wide), 8 * q, d);
  }

  lemma LowWord(wide: bool, q: nat, r: nat, n: nat)
    requires n == WRAP * q + r && r < WRAP
    ensures r * 8 % LongSize(wide) % WRAP == 8 * n % WRAP
  {
    EightTimes(wide, r);
    ModPlus(8 * r, 8 * q);
    assert 8 * n == 8 * r + WRAP * (8 * q);
  }

  lemma DivIs(x: nat, q: nat, m: nat)
    requires x == WRAP * q + m && m < WRAP
    ensures x / WRAP == q
  {
  }

  lemma WrapAdds(x: nat, y: nat, d: nat)
    requires x % WRAP == y % WRAP
    ensures (d + x) % WRAP == (d + y) % WRAP
  {
  }

  lemma EightTimes(wide: bool, x: nat)
    ensures x % LongSize(wide) * 8 % LongSize(wide) % WRAP == 8 * x % WRAP
    ensures x * 8 % LongSize(wide) % WRAP == 8 * x % WRAP
  {
    if wide {
      EightTimesWide(x);
    } else {
      TimesEight(x);
    }
  }

  lemma ModMod(z: nat)
    ensures z % WRAP2 % WRAP == z % WRAP
  {
    var k, y := z / WRAP2, z % WRAP2;
    assert z == y + WRAP * (WRAP * k);
    ModPlus(y, WRAP * k);
  }

  lemma EightTimesWide(x: nat)
    ensures x % WRAP2 * 8 % WRAP2 % WRAP == 8 * x % WRAP
    ensures x * 8 % WRAP2 % WRAP == 8 * x % WRAP
  {
    var q, r := x / WRAP2, x % WRAP2;
    ModMod(8 * x);
    ModMod(8 * r);
    assert 8 * x == 8 * r + WRAP * (8 * WRAP * q);
    ModPlus(8 * r, 8 * WRAP * q);
  }
}
