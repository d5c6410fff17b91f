/** The byte arithmetic of HllDense and HllSpill is the bit arithmetic of get_reg, set_reg and the VAL flags. */
module HllBits {
  import opened Bytes
  import opened HllDense
  import opened HllSparse
  import opened HllSpill

  // Shifts and masks as division and remainder.

  lemma Right2(b: bv8)
    ensures (b >> 2) as nat == b as nat / 4
  {
  }

  lemma Right4(b: bv8)
    ensures (b >> 4) as nat == b as nat / 16
  {
  }

  lemma Right6(b: bv8)
    ensures (b >> 6) as nat == b as nat / 64
  {
  }

  lemma Low2(b: bv8)
    ensures (b & 3) as nat == b as nat % 4
  {
  }

  lemma Low4(b: bv8)
    ensures (b & 15) as nat == b as nat % 16
  {
  }

  lemma Low6(b: bv8)
    ensures (b & 63) as nat == b as nat % 64
  {
  }

  lemma Times4(b: bv8)
    requires b < 64
    ensures (b << 2) as nat == 4 * b as nat
  {
  }

  lemma Times16(b: bv8)
    requires b < 16
    ensures (b << 4) as nat == 16 * b as nat
  {
  }

  lemma Times64(b: bv8)
    requires b < 4
    ensures (b << 6) as nat == 64 * b as nat
  {
  }

  lemma Disjoint(x: bv8, y: bv8)
    requires x & y == 0
    ensures (x | y) as nat == x as nat + y as nat
  {
    assert x | y == x + y;
    assert x <= 255 - y;
  }

  lemma OrSmall(a: bv8, b: bv8)
    requires a < 4 && b < 4
    ensures (a | b) as nat == Or2(a as nat, b as nat)
  {
    assert a == 0 || a == 1 || a == 2 || a == 3;
    assert b == 0 || b == 1 || b == 2 || b == 3;
  }

  /** (1 << 7) | (v << 2) | n, clamped to a byte. */
  lemma OrValIs(v: bv8, n: bv8)
    requires v < 64 && n <= 4
    ensures OrVal(v as nat, n as nat) == (128 | (v << 2) | n) as nat
  {
  }

  // The expressions of get_reg and set_reg.

  /** A char as it enters 32-bit arithmetic. */
  function Char(b: bv8): bv32 { if b < 128 then b as bv32 else 0xffff_ff00 | b as bv32 }

  /** (buf0 >> fb) | (buf1 << (8 - fb)), clamped to a byte, on chars as written and on unsigned bytes as intended. */
  function ReadChars(b0: bv8, b1: bv8, fb: bv8): bv32
    requires fb <= 8
  {
    ((Char(b0) >> fb) | (Char(b1) << (8 - fb))) & 255
  }

  function ReadBytes(b0: bv8, b1: bv8, fb: bv8): bv32
    requires fb <= 8
  {
    ((b0 as bv32 >> fb) | (b1 as bv32 << (8 - fb))) & 255
  }

  /** buf0 &= ~(63 << fb); buf0 |= value << fb; clamped. */
  function PutLow(b0: bv8, fb: bv8, v: bv8): bv32
    requires fb <= 8
  {
    ((Char(b0) & !(63 << fb)) | (v as bv32 << fb)) & 255
  }

  /** buf1 &= ~(63 >> (8 - fb)); buf1 |= value >> (8 - fb); clamped. */
  function PutHigh(b1: bv8, fb: bv8, v: bv8): bv32
    requires fb <= 8
  {
    ((Char(b1) & !(63 >> (8 - fb))) | (v as bv32 >> (8 - fb))) & 255
  }

  /** The positions at which a register can start. */
  predicate BitOffset(fb: bv8) { fb == 0 || fb == 2 || fb == 4 || fb == 6 }

  // The same, put together from parts that do not overlap.

  function Read8(b0: bv8, b1: bv8, fb: bv8): bv8 {
    match fb
    case 0 => b0
    case 2 => (b0 >> 2) | ((b1 & 3) << 6)
    case 4 => (b0 >> 4) | ((b1 & 15) << 4)
    case _ => (b0 >> 6) | ((b1 & 63) << 2)
  }

  /** A set top bit fills what the shift leaves free. */
  function Fill8(b0: bv8, fb: bv8): bv8 {
    match fb
    case 0 => b0
    case 2 => (b0 >> 2) | 192
    case 4 => (b0 >> 4) | 240
    case _ => (b0 >> 6) | 252
  }

  function Low8(b0: bv8, fb: bv8, v: bv8): bv8 {
    match fb
    case 0 => (v & 63) | (((b0 >> 6) | (v >> 6)) << 6)
    case 2 => (b0 & 3) | ((v & 63) << 2)
    case 4 => (b0 & 15) | ((v & 15) << 4)
    case _ => (b0 & 63) | ((v & 3) << 6)
  }

  function High8(b1: bv8, fb: bv8, v: bv8): bv8 {
    match fb
    case 0 => b1
    case 2 => ((b1 >> 2) << 2) | ((b1 & 3) | (v >> 6))
    case 4 => ((b1 >> 4) << 4) | (((((b1 >> 2) & 3) | (v >> 6)) << 2) | ((v >> 4) & 3))
    case _ => ((b1 >> 6) << 6) | (((((b1 >> 4) & 3) | (v >> 6)) << 4) | ((v >> 2) & 15))
  }

  lemma ByteParts(b: bv8, c: bv8, fb: bv8)
    requires BitOffset(fb)
    ensures ReadBytes(b, c, fb) == Read8(b, c, fb) as bv32
  {
  }

  lemma CharParts(b: bv8, c: bv8, fb: bv8)
    requires BitOffset(fb)
    ensures ReadChars(b, c, fb) == (if b < 128 then Read8(b, c, fb) else Fill8(b, fb)) as bv32
  {
    if b < 128 {
      PlainParts(b, c, fb);
    } else {
      FillParts(b, c, fb);
    }
  }

  lemma PlainParts(b: bv8, c: bv8, fb: bv8)
    requires BitOffset(fb) && b < 128
    ensures ReadChars(b, c, fb) == Read8(b, c, fb) as bv32
  {
    LowSame(c, fb);
    ByteParts(b, c, fb);
  }

  /** The sign of the second byte does not matter. */
  lemma LowSame(c: bv8, fb: bv8)
    requires BitOffset(fb)
    ensures (Char(c) << (8 - fb)) & 255 == (c as bv32 << (8 - fb)) & 255
  {
  }

  lemma FillParts(b: bv8, c: bv8, fb: bv8)
    requires BitOffset(fb) && b >= 128
    ensures ReadChars(b, c, fb) == Fill8(b, fb) as bv32
  {
  }

  lemma LowParts(b: bv8, fb: bv8, v: bv8)
    requires BitOffset(fb)
    ensures PutLow(b, fb, v) == Low8(b, fb, v) as bv32
  {
  }

  lemma HighParts(b: bv8, fb: bv8, v: bv8)
    requires BitOffset(fb)
    ensures PutHigh(b, fb, v) == High8(b, fb, v) as bv32
  {
  }

  lemma Read8Is(b0: bv8, b1: bv8, fb: bv8)
    requires BitOffset(fb)
    ensures Window(b0 as nat, b1 as nat, fb as nat) == Read8(b0, b1, fb) as nat
  {
    match fb
    case 0 =>
      Window0(b0 as nat, b1 as nat);
    case 2 =>
      Window2(b0 as nat, b1 as nat);
      Read2(b0, b1);
    case 4 =>
      Window4(b0 as nat, b1 as nat);
      Read4(b0, b1);
    case _ =>
      Window6(b0 as nat, b1 as nat);
      Read6(b0, b1);
  }

  lemma Read2(b0: bv8, b1: bv8)
    ensures Read8(b0, b1, 2) as nat == b0 as nat / 4 + b1 as nat % 4 * 64
  {
    Disjoint(b0 >> 2, (b1 & 3) << 6);
    Right2(b0);
    Low2(b1);
    Times64(b1 & 3);
  }

  lemma Read4(b0: bv8, b1: bv8)
    ensures Read8(b0, b1, 4) as nat == b0 as nat / 16 + b1 as nat % 16 * 16
  {
    Disjoint(b0 >> 4, (b1 & 15) << 4);
    Right4(b0);
    Low4(b1);
    Times16(b1 & 15);
  }

  lemma Read6(b0: bv8, b1: bv8)
    ensures Read8(b0, b1, 6) as nat == b0 as nat / 64 + b1 as nat % 64 * 4
  {
    Disjoint(b0 >> 6, (b1 & 63) << 2);
    Right6(b0);
    Low6(b1);
    Times4(b1 & 63);
  }

  lemma Fill8Is(b0: bv8, b1: bv8, fb: bv8)
    requires BitOffset(fb) && b0 >= 128
    ensures SignedWindow(b0 as nat, b1 as nat, fb as nat) == Fill8(b0, fb) as nat
  {
    match fb
    case 0 =>
    case 2 =>
      Right2(b0);
      Disjoint(b0 >> 2, 192);
    case 4 =>
      Right4(b0);
      Disjoint(b0 >> 4, 240);
    case _ =>
      Right6(b0);
      Disjoint(b0 >> 6, 252);
  }

  /** get_reg as intended is its own expression on unsigned bytes. */
  lemma ReadIs(b0: bv8, b1: bv8, fb: bv8)
    requires BitOffset(fb)
    ensures Window(b0 as nat, b1 as nat, fb as nat) == ReadBytes(b0, b1, fb) as nat
  {
    ByteParts(b0, b1, fb);
    Read8Is(b0, b1, fb);
  }

  lemma SignedIs(b0: bv8, b1: bv8, fb: bv8)
    requires BitOffset(fb)
    ensures SignedWindow(b0 as nat, b1 as nat, fb as nat) == (if b0 < 128 then Read8(b0, b1, fb) else Fill8(b0, fb)) as nat
  {
    if b0 < 128 {
      Read8Is(b0, b1, fb);
    } else {
      Fill8Is(b0, b1, fb);
    }
  }

  /** get_reg as written is that expression on chars. */
  lemma LiteralReadIs(b0: bv8, b1: bv8, fb: bv8)
    requires BitOffset(fb)
    ensures SignedWindow(b0 as nat, b1 as nat, fb as nat) == ReadChars(b0, b1, fb) as nat
  {
    CharParts(b0, b1, fb);
    SignedIs(b0, b1, fb);
  }

  lemma Low8Is(b0: bv8, fb: bv8, v: bv8)
    requires BitOffset(fb)
    ensures LowWide(b0 as nat, fb as nat, v as nat) == Low8(b0, fb, v) as nat
  {
    match fb
    case 0 => LowIs0(b0, v);
    case 2 => LowIs2(b0, v);
    case 4 => LowIs4(b0, v);
    case _ => LowIs6(b0, v);
  }

  lemma LowIs0(b0: bv8, v: bv8)
    ensures LowWide(b0 as nat, 0, v as nat) == Low8(b0, 0, v) as nat
  {
    var m := (b0 >> 6) | (v >> 6);
    Disjoint(v & 63, m << 6);
    Low6(v);
    TopOr(b0, v);
    Times64(m);
  }

  lemma TopOr(b0: bv8, v: bv8)
    ensures ((b0 >> 6) | (v >> 6)) as nat == Or2(b0 as nat / 64, v as nat / 64)
  {
    Right6(b0);
    Right6(v);
    OrSmall(b0 >> 6, v >> 6);
  }

  lemma LowIs2(b0: bv8, v: bv8)
    ensures LowWide(b0 as nat, 2, v as nat) == Low8(b0, 2, v) as nat
  {
    Disjoint(b0 & 3, (v & 63) << 2);
    Low2(b0);
    Low6(v);
    Times4(v & 63);
  }

  lemma LowIs4(b0: bv8, v: bv8)
    ensures LowWide(b0 as nat, 4, v as nat) == Low8(b0, 4, v) as nat
  {
    Disjoint(b0 & 15, (v & 15) << 4);
    Low4(b0);
    Low4(v);
    Times16(v & 15);
  }

  lemma LowIs6(b0: bv8, v: bv8)
    ensures LowWide(b0 as nat, 6, v as nat) == Low8(b0, 6, v) as nat
  {
    Disjoint(b0 & 63, (v & 3) << 6);
    Low6(b0);
    Low2(v);
    Times64(v & 3);
  }

  lemma High8Is(b1: bv8, fb: bv8, v: bv8)
    requires BitOffset(fb)
    ensures HighWide(b1 as nat, fb as nat, v as nat) == High8(b1, fb, v) as nat
  {
    match fb
    case 0 =>
    case 2 => HighIs2(b1, v);
    case 4 => HighIs4(b1, v);
    case _ => HighIs6(b1, v);
  }

  lemma HighIs2(b1: bv8, v: bv8)
    ensures HighWide(b1 as nat, 2, v as nat) == High8(b1, 2, v) as nat
  {
    Disjoint((b1 >> 2) << 2, (b1 & 3) | (v >> 6));
    Right2(b1);
    Times4(b1 >> 2);
    Low2(b1);
    Right6(v);
    OrSmall(b1 & 3, v >> 6);
  }

  lemma Upper4(b1: bv8)
    ensures ((b1 >> 4) << 4) as nat == b1 as nat / 16 * 16
  {
    Right4(b1);
    Times16(b1 >> 4);
  }

  lemma Upper6(b1: bv8)
    ensures ((b1 >> 6) << 6) as nat == b1 as nat / 64 * 64
  {
    Right6(b1);
    Times64(b1 >> 6);
  }

  lemma Middle4(b1: bv8, v: bv8)
    ensures (((b1 >> 2) & 3) | (v >> 6)) as nat == Or2(b1 as nat / 4 % 4, v as nat / 64)
  {
    Right2(b1);
    Low2(b1 >> 2);
    Right6(v);
    OrSmall((b1 >> 2) & 3, v >> 6);
  }

  lemma Middle6(b1: bv8, v: bv8)
    ensures (((b1 >> 4) & 3) | (v >> 6)) as nat == Or2(b1 as nat / 16 % 4, v as nat / 64)
  {
    Right4(b1);
    Low2(b1 >> 4);
    Right6(v);
    OrSmall((b1 >> 4) & 3, v >> 6);
  }

  lemma Lower4(m: bv8, v: bv8)
    requires m < 4
    ensures ((m << 2) | ((v >> 4) & 3)) as nat == m as nat * 4 + v as nat / 16 % 4
  {
    Disjoint(m << 2, (v >> 4) & 3);
    Times4(m);
    Right4(v);
    Low2(v >> 4);
  }

  lemma Lower6(m: bv8, v: bv8)
    requires m < 4
    ensures ((m << 4) | ((v >> 2) & 15)) as nat == m as nat * 16 + v as nat / 4 % 16
  {
    Disjoint(m << 4, (v >> 2) & 15);
    Times16(m);
    Right2(v);
    Low4(v >> 2);
  }

  lemma HighIs4(b1: bv8, v: bv8)
    ensures HighWide(b1 as nat, 4, v as nat) == High8(b1, 4, v) as nat
  {
    var m := ((b1 >> 2) & 3) | (v >> 6);
    Disjoint((b1 >> 4) << 4, (m << 2) | ((v >> 4) & 3));
    Upper4(b1);
    Middle4(b1, v);
    Lower4(m, v);
  }

  lemma HighIs6(b1: bv8, v: bv8)
    ensures HighWide(b1 as nat, 6, v as nat) == High8(b1, 6, v) as nat
  {
    var m := ((b1 >> 4) & 3) | (v >> 6);
    Disjoint((b1 >> 6) << 6, (m << 4) | ((v >> 2) & 15));
    Upper6(b1);
    Middle6(b1, v);
    Lower6(m, v);
  }

  /** The two bytes that set_reg writes, for any value of eight bits. */
  lemma PutLowIs(b: bv8, fb: bv8, v: bv8)
    requires BitOffset(fb)
    ensures LowWide(b as nat, fb as nat, v as nat) == PutLow(b, fb, v) as nat
  {
    LowParts(b, fb, v);
    Low8Is(b, fb, v);
  }

  lemma PutHighIs(b: bv8, fb: bv8, v: bv8)
    requires BitOffset(fb)
    ensures HighWide(b as nat, fb as nat, v as nat) == PutHigh(b, fb, v) as nat
  {
    HighParts(b, fb, v);
    High8Is(b, fb, v);
  }

  // In a buffer.

  /** get_reg, given its two bytes and the bit offset: as intended, with the two upper bits cleared. */
  lemma GetRegIs(buf: seq<Byte>, reg: nat, b0: bv8, b1: bv8, fb: bv8)
    requires DenseBuf(buf) && reg < REGISTERS
    requires buf[6 * reg / 8 + 16] == b0 as nat && buf[6 * reg / 8 + 17] == b1 as nat && 6 * reg % 8 == fb as nat
    ensures BitOffset(fb) && GetReg(buf, reg) == ReadBytes(b0, b1, fb) as nat % 64
  {
    OffsetIs(reg, fb);
    ReadIs(b0, b1, fb);
  }

  /** As written. */
  lemma GetRegLiteralIs(buf: seq<Byte>, reg: nat, b0: bv8, b1: bv8, fb: bv8)
    requires DenseBuf(buf) && reg < REGISTERS
    requires buf[6 * reg / 8 + 16] == b0 as nat && buf[6 * reg / 8 + 17] == b1 as nat && 6 * reg % 8 == fb as nat
    ensures BitOffset(fb) && GetRegLiteral(buf, reg) == ReadChars(b0, b1, fb) as nat
  {
    OffsetIs(reg, fb);
    LiteralReadIs(b0, b1, fb);
  }

  lemma OffsetIs(reg: nat, fb: bv8)
    requires 6 * reg % 8 == fb as nat
    ensures BitOffset(fb)
  {
    assert 6 * reg % 8 % 2 == 0;
  }

  /** set_reg of any value of eight bits: two bytes are written, and no other. */
  lemma SetRegIs(buf: seq<Byte>, reg: nat, v: bv8, b0: bv8, b1: bv8, fb: bv8)
    requires DenseBuf(buf) && reg < REGISTERS
    requires buf[6 * reg / 8 + 16] == b0 as nat && buf[6 * reg / 8 + 17] == b1 as nat && 6 * reg % 8 == fb as nat
    ensures BitOffset(fb)
    ensures var p := 6 * reg / 8 + 16;
      SetRegWide(buf, reg, v as nat) == buf[p := PutLow(b0, fb, v) as nat][p + 1 := PutHigh(b1, fb, v) as nat]
  {
    OffsetIs(reg, fb);
    PutLowIs(b0, fb, v);
    PutHighIs(b1, fb, v);
  }
}
