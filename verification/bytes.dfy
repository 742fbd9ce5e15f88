/** Bytes and the little-endian unsigned 32-bit integers the archive stores. */
module Bytes {

  newtype byte = b: int | 0 <= b < 0x100

  const U32Limit: nat := 0x1_0000_0000

  type u32 = x: nat | x < U32Limit

  /** The little-endian u32 held by data[p..p+4]. */
  function LeU32At(data: seq<byte>, p: nat): (v: u32)
    requires p + 4 <= |data|
  {
    data[p] as int + 0x100 * data[p + 1] as int
    + 0x1_0000 * data[p + 2] as int + 0x100_0000 * data[p + 3] as int
  }

  /** The four little-endian bytes of x, least significant first. */
  function U32Le(x: u32): (r: seq<byte>)
    ensures |r| == 4
    ensures LeU32At(r, 0) == x
  {
    var x1 := x / 0x100;
    var x2 := x1 / 0x100;
    var x3 := x2 / 0x100;
    [(x % 0x100) as byte, (x1 % 0x100) as byte, (x2 % 0x100) as byte, x3 as byte]
  }

  /** Re-encoding a stored u32 gives back the very bytes it was read from. */
  lemma U32LeOfStored(data: seq<byte>, p: nat)
    requires p + 4 <= |data|
    ensures U32Le(LeU32At(data, p)) == data[p..p + 4]
  {
    var x := LeU32At(data, p);
    var d0, d1, d2, d3 := data[p] as int, data[p + 1] as int, data[p + 2] as int, data[p + 3] as int;
    var hi1 := d1 + 0x100 * d2 + 0x1_0000 * d3;
    var hi2 := d2 + 0x100 * d3;
    DivModByte(x, hi1, d0);
    DivModByte(hi1, hi2, d1);
    DivModByte(hi2, d3, d2);
  }

  /** Euclidean division by 256 is unique. */
  lemma DivModByte(a: int, q: int, r: int)
    requires a == 0x100 * q + r && 0 <= r < 0x100
    ensures a / 0x100 == q && a % 0x100 == r
  {
  }

  /** A run of k zero bytes (the archive's reserved fields and padding). */
  function Zeros(k: nat): (r: seq<byte>)
    ensures |r| == k
    ensures forall i :: 0 <= i < k ==> r[i] == 0
  {
    seq(k, _ => 0)
  }
}
