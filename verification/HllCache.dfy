/** The header of a HyperLogLog string: encoding byte, and a 63-bit cached count whose top bit means invalid. */
module HllCache {
  import opened Bytes
  import opened Seqs

  /** 256 to the power k. */
  function Base(k: nat): (b: nat)
    ensures b > 0
  {
    if k == 0 then 1 else 256 * Base(k - 1)
  }

  /** k little-endian bytes of n, and the number that bytes stand for. */
  function Le(n: nat, k: nat): (b: seq<Byte>)
    ensures |b| == k
  {
    if k == 0 then [] else [n % 256] + Le(n / 256, k - 1)
  }

  function FromLe(b: seq<Byte>): nat {
    if b == [] then 0 else b[0] + 256 * FromLe(b[1..])
  }

  lemma {:induction false} LeRoundTrip(n: nat, k: nat)
    requires n < Base(k)
    ensures FromLe(Le(n, k)) == n
  {
    if k > 0 {
      DivBelow(n, Base(k - 1));
      LeRoundTrip(n / 256, k - 1);
      assert Le(n, k)[1..] == Le(n / 256, k - 1);
    }
  }

  lemma DivBelow(n: nat, x: nat)
    requires n < 256 * x
    ensures n / 256 < x
  {
  }

  lemma {:induction false} LeTop(n: nat, k: nat)
    requires k > 0 && n < 128 * Base(k - 1)
    ensures Le(n, k)[k - 1] < 128
  {
    if k > 1 {
      DivBelow(n, 128 * Base(k - 2));
      LeTop(n / 256, k - 1);
    } else {
      assert Base(0) == 1;
    }
  }

  lemma {:induction false} FromLeAppend(a: seq<Byte>, b: Byte)
    ensures FromLe(a + [b]) == FromLe(a) + Base(|a|) * b
  {
    if a == [] {
      assert a + [b] == [b];
    } else {
      FromLeAppend(a[1..], b);
      assert (a + [b])[1..] == a[1..] + [b];
      assert Base(|a|) * b == 256 * (Base(|a| - 1) * b);
    }
  }

  const LIMIT: nat := 0x8000_0000_0000_0000

  lemma LimitIs()
    ensures 128 * Base(7) == LIMIT && Base(8) == 2 * LIMIT
  {
    assert Base(4) == 0x1_0000_0000;
    assert Base(7) == 0x100_0000 * Base(4);
  }

  predicate CacheValid(buf: seq<Byte>)
    requires |buf| >= 16
  {
    buf[15] < 128
  }

  /** The number in the cache bytes. */
  ghost function Cached(buf: seq<Byte>): nat
    requires |buf| >= 16
  {
    FromLe(buf[8..16])
  }

  /** Equal but for the cache bytes. */
  ghost predicate SameButCache(a: seq<Byte>, b: seq<Byte>) {
    |a| == |b| && |a| >= 16 && a[..8] == b[..8] && a[16..] == b[16..]
  }

  /** hll->buf[15] |= (1 << 7) */
  function Invalidate(buf: seq<Byte>): (out: seq<Byte>)
    requires |buf| >= 16
    ensures SameButCache(buf, out) && !CacheValid(out) && out[15] >= 128
  {
    buf[15 := if buf[15] < 128 then buf[15] + 128 else buf[15]]
  }

  /** set_cache, for a value that passes its assertion. */
  method SetCache(buf0: seq<Byte>, value0: nat) returns (buf: seq<Byte>)
    requires |buf0| >= 16 && value0 < LIMIT
    ensures SameButCache(buf0, buf) && CacheValid(buf) && Cached(buf) == value0 && buf[15] < 128
  {
    buf := buf0;
    var value, i := value0, 8;
    while i < 16
      invariant 8 <= i <= 16 && SameButCache(buf0, buf)
      invariant buf[8..i] + Le(value, 16 - i) == Le(value0, 8)
    {
      LeStep(buf, i, value, Le(value0, 8));
      buf := buf[i := value % 256];
      value, i := value / 256, i + 1;
    }
    CacheHolds(buf, value0);
  }

  lemma LeStep(buf: seq<Byte>, i: nat, value: nat, all: seq<Byte>)
    requires |buf| >= 16 && 8 <= i < 16 && buf[8..i] + Le(value, 16 - i) == all
    ensures buf[i := value % 256][8..i + 1] + Le(value / 256, 15 - i) == all
    ensures SameButCache(buf, buf[i := value % 256])
  {
    assert buf[i := value % 256][8..i + 1] == buf[8..i] + [value % 256];
    Assoc(buf[8..i], [value % 256], Le(value / 256, 15 - i));
  }

  lemma CacheHolds(buf: seq<Byte>, value: nat)
    requires |buf| >= 16 && buf[8..16] + Le(0, 0) == Le(value, 8) && value < LIMIT
    ensures CacheValid(buf) && Cached(buf) == value
  {
    Nil(buf[8..16]);
    LimitIs();
    LeRoundTrip(value, 8);
    LeTop(value, 8);
    assert buf[15] == buf[8..16][7];
  }

  /** get_cache, when the cache is valid. */
  method GetCache(buf: seq<Byte>) returns (cache: nat)
    requires |buf| >= 16 && CacheValid(buf)
    ensures cache == Cached(buf)
  {
    cache := 0;
    var weight: nat, i: nat := 1, 0;
    while i < 8
      invariant 0 <= i <= 8 && weight == Base(i) && cache == FromLe(buf[8..8 + i])
    {
      FromLeAppend(buf[8..8 + i], buf[8 + i]);
      assert buf[8..8 + i] + [buf[8 + i]] == buf[8..8 + i + 1];
      cache := cache + weight * buf[8 + i];
      weight, i := 256 * weight, i + 1;
    }
  }
}
