/** The devices' bytes and the 64-bit accesses the drivers make to them. */
module Devices {
  import opened Words

  const MAX_SSD_DEV: nat := 7
  const MAX_LBAS_PER_SSD: nat := 1024
  const LBA_SIZE: nat := 512

  /** The 64-bit word at index k of device d: bytes 8k..8k+7. */
  function LoadWord(data: array2<bv8>, d: nat, k: nat): Word
    requires d < data.Length0 && 8 * k + 8 <= data.Length1
    reads data
  {
    seq(8, i requires 0 <= i < 8 && d < data.Length0 && 8 * k + 8 <= data.Length1 reads data => data[d, 8 * k + i])
  }

  method StoreWord(data: array2<bv8>, d: nat, k: nat, w: Word)
    requires d < data.Length0 && 8 * k + 8 <= data.Length1
    modifies data
    ensures forall e, m :: 0 <= e < data.Length0 && 0 <= m && 8 * m + 8 <= data.Length1 ==>
              LoadWord(data, e, m) == if e == d && m == k then w else old(LoadWord(data, e, m))
    ensures forall e, b :: 0 <= e < data.Length0 && 8 * k + 8 <= b < data.Length1 ==> data[e, b] == old(data[e, b])
  {
    forall i | 0 <= i < 8 {
      data[d, 8 * k + i] := w[i];
    }
    assert LoadWord(data, d, k) == w;
    forall e, m | 0 <= e < data.Length0 && 0 <= m && 8 * m + 8 <= data.Length1 && !(e == d && m == k)
      ensures LoadWord(data, e, m) == old(LoadWord(data, e, m))
    {
      forall i | 0 <= i < 8 ensures LoadWord(data, e, m)[i] == old(LoadWord(data, e, m))[i] {
      }
    }
  }

  /** Word n of a byte buffer. */
  function BufWord(buf: seq<bv8>, n: nat): Word
    requires 8 * n + 8 <= |buf|
  {
    buf[8 * n..8 * n + 8]
  }
}
