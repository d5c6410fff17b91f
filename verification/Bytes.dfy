/** Bytes, the element type of keys, messages and output buffers, little-endian numbers, and a little arithmetic. */
module Bytes {
  type Byte = x: int | 0 <= x < 256

  // The tags of values on the wire.
  const TAG_STR: Byte := 1
  const TAG_ARR: Byte := 2
  const TAG_DOUBLE: Byte := 5

  /** The range of a uint32_t. */
  const WORD: nat := 0x1_0000_0000

  function Max(a: nat, b: nat): nat { if a < b then b else a }

  /** 1 << e */
  function Pow2(e: nat): (n: nat)
    ensures n > 0
  {
    if e == 0 then 1 else 2 * Pow2(e - 1)
  }

  /** memcpy of a uint32_t on a little-endian machine. */
  function Le32(n: nat): (b: seq<Byte>)
    ensures |b| == 4
  {
    [n % 256, n / 256 % 256, n / 0x1_0000 % 256, n / 0x100_0000 % 256]
  }

  function FromLe32(b: seq<Byte>): (n: nat)
    requires |b| == 4
    ensures n < 0x1_0000_0000
  {
    b[0] as int + 256 * (b[1] as int) + 0x1_0000 * (b[2] as int) + 0x100_0000 * (b[3] as int)
  }

  lemma Le32RoundTrip(n: nat)
    requires n < 0x1_0000_0000
    ensures FromLe32(Le32(n)) == n
  {
    var low, high := n % 0x1_0000, n / 0x1_0000;
    Digits(n, low, high);
    TwoBytes(low);
    TwoBytes(high);
  }

  /** The four bytes are those of the two halves. */
  lemma Digits(n: nat, low: nat, high: nat)
    requires low == n % 0x1_0000 && high == n / 0x1_0000
    ensures n % 256 == low % 256 && n / 256 % 256 == low / 256 % 256 && n / 0x100_0000 == high / 256
  {
    assert n == 256 * (256 * high + low / 256) + low % 256;
    assert n / 256 == 256 * high + low / 256;
    assert n == 0x100_0000 * (high / 256) + (0x1_0000 * (high % 256) + low);
  }

  lemma TwoBytes(n: nat)
    requires n < 0x1_0000
    ensures n == n % 256 + 256 * (n / 256 % 256) && n / 256 < 256
  {
  }
}
