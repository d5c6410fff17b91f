/** The packed 6-bit registers of hyperloglog.cpp's dense encoding. */
module HllDense {
  import opened Bytes

  const HEADER: nat := 16
  const REGISTERS: nat := 16384
  const DENSE_BYTES: nat := 12288  // 6 * REGISTERS / 8

  /** x >> k and x << k, for the shifts that occur. */
  function Right(x: nat, k: nat): nat {
    match k case 0 => x case 2 => x / 4 case 4 => x / 16 case 6 => x / 64 case _ => x / 256
  }

  function Left(x: nat, k: nat): nat {
    match k case 0 => x case 2 => 4 * x case 4 => 16 * x case 6 => 64 * x case _ => 256 * x
  }

  /** x & ~(63 << k) and x & ~(63 >> k) */
  function ClearLeft(x: nat, k: nat): int { x - Left(Right(x, k) % 64, k) }

  function ClearRight(x: nat, k: nat): int {
    match k case 2 => x - x % 16 case 4 => x - x % 4 case _ => x
  }

  /** Byte of a register's first bit, and that bit's position in it. */
  function BytePos(reg: nat): nat { 6 * reg / 8 + HEADER }

  function BitPos(reg: nat): nat { 6 * reg % 8 }

  /** (buf0 >> fb) | (buf1 << (8 - fb)), clamped to a byte, on unsigned bytes. */
  function Window(b0: Byte, b1: Byte, fb: nat): Byte
    requires fb <= 8
  {
    (Right(b0, fb) + Left(b1, 8 - fb)) % 256
  }

  /** The same on signed bytes: a set top bit of buf0 is dragged in by the right shift. */
  function SignedWindow(b0: Byte, b1: Byte, fb: nat): nat
    requires fb <= 8
  {
    if b0 < 128 then Window(b0, b1, fb) else Right(b0, fb) + 256 - Left(1, 8 - fb)
  }

  /** Header, registers and the terminator byte. */
  ghost predicate DenseBuf(buf: seq<Byte>) {
    |buf| == HEADER + DENSE_BYTES + 1
  }

  lemma InBuffer(reg: nat)
    requires reg < REGISTERS
    ensures BytePos(reg) + 1 < HEADER + DENSE_BYTES + 1
  {
  }

  /** get_reg as intended: on unsigned bytes, with the two upper bits masked off. */
  function GetReg(buf: seq<Byte>, reg: nat): (v: nat)
    requires DenseBuf(buf) && reg < REGISTERS
    ensures v < 64
  {
    InBuffer(reg);
    Window(buf[BytePos(reg)], buf[BytePos(reg) + 1], BitPos(reg)) % 64
  }

  /** get_reg as it stands: signed bytes, no mask. */
  function GetRegLiteral(buf: seq<Byte>, reg: nat): nat
    requires DenseBuf(buf) && reg < REGISTERS
  {
    InBuffer(reg);
    SignedWindow(buf[BytePos(reg)], buf[BytePos(reg) + 1], BitPos(reg))
  }

  /** buf0 &= ~(63 << fb); buf0 |= value << fb; clamped. */
  function LowByte(b0: Byte, fb: nat, v: nat): Byte {
    (ClearLeft(b0, fb) + Left(v, fb)) % 256
  }

  /** buf1 &= ~(63 >> (8 - fb)); buf1 |= value >> (8 - fb); clamped. */
  function HighByte(b1: Byte, fb: nat, v: nat): Byte
    requires fb <= 8
  {
    (ClearRight(b1, 8 - fb) + Right(v, 8 - fb)) % 256
  }

  /** set_reg */
  function SetReg(buf: seq<Byte>, reg: nat, v: nat): (out: seq<Byte>)
    requires DenseBuf(buf) && reg < REGISTERS && v < 64
    ensures |out| == |buf|
  {
    InBuffer(reg);
    var b0, fb := BytePos(reg), BitPos(reg);
    buf[b0 := LowByte(buf[b0], fb, v)][b0 + 1 := HighByte(buf[b0 + 1], fb, v)]
  }

  /** The register vector a dense buffer stands for. */
  ghost function Regs(buf: seq<Byte>): (r: seq<nat>)
    requires DenseBuf(buf)
    ensures |r| == REGISTERS
    ensures forall i :: 0 <= i < REGISTERS ==> r[i] == GetReg(buf, i)
  {
    seq(REGISTERS, i requires 0 <= i < REGISTERS => GetReg(buf, i))
  }

  // Four registers share a group of three bytes.

  datatype Group = Group(x: Byte, y: Byte, z: Byte)

  /** The group at `buf[g..g + 3]`. */
  ghost function GroupAt(buf: seq<Byte>, g: nat): Group
    requires g + 3 <= |buf|
  {
    Group(buf[g], buf[g + 1], buf[g + 2])
  }

  ghost function Slot(g: Group, s: nat): nat {
    match s
    case 0 => g.x % 64
    case 1 => g.x / 64 + g.y % 16 * 4
    case 2 => g.y / 16 + g.z % 4 * 16
    case _ => g.z / 4
  }

  ghost function SetSlot(g: Group, s: nat, v: nat): Group
    requires v < 64
  {
    match s
    case 0 => Group(g.x / 64 * 64 + v, g.y, g.z)
    case 1 => Group(g.x % 64 + v % 4 * 64, g.y / 16 * 16 + v / 4, g.z)
    case 2 => Group(g.x, g.y % 16 + v % 16 * 16, g.z / 4 * 4 + v / 16)
    case _ => Group(g.x, g.y, g.z % 4 + v * 4)
  }

  // Quotients and remainders of numbers put together from both.

  lemma Dm4(q: nat, r: nat)
    requires r < 4
    ensures (4 * q + r) / 4 == q && (4 * q + r) % 4 == r
  {
  }

  lemma Dm16(q: nat, r: nat)
    requires r < 16
    ensures (16 * q + r) / 16 == q && (16 * q + r) % 16 == r
  {
  }

  lemma Dm64(q: nat, r: nat)
    requires r < 64
    ensures (64 * q + r) / 64 == q && (64 * q + r) % 64 == r
  {
  }

  lemma Dm256(q: nat, r: nat)
    requires r < 256
    ensures (256 * q + r) % 256 == r
  {
  }

  /** A byte put together from its lower two, four or six bits and the rest. */
  lemma Join(lo: nat, hi: nat)
    ensures lo < 4 ==> (lo + hi * 4) % 4 == lo && (lo + hi * 4) / 4 == hi
    ensures lo < 16 ==> (lo + hi * 16) % 16 == lo && (lo + hi * 16) / 16 == hi
    ensures lo < 64 ==> (lo + hi * 64) % 64 == lo && (lo + hi * 64) / 64 == hi
  {
    if lo < 4 { Dm4(hi, lo); }
    if lo < 16 { Dm16(hi, lo); }
    if lo < 64 { Dm64(hi, lo); }
  }

  lemma SlotAfterSet(g: Group, s: nat, v: nat, i: nat)
    requires s < 4 && i < 4 && v < 64
    ensures Slot(SetSlot(g, s, v), i) == if i == s then v else Slot(g, i)
  {
    match s
    case 0 => SlotAfterSet0(g, v, i);
    case 1 => SlotAfterSet1(g, v, i);
    case 2 => SlotAfterSet2(g, v, i);
    case _ => SlotAfterSet3(g, v, i);
  }

  lemma SlotAfterSet0(g: Group, v: nat, i: nat)
    requires i < 4 && v < 64
    ensures Slot(SetSlot(g, 0, v), i) == if i == 0 then v else Slot(g, i)
  {
    Join(v, g.x / 64);
  }

  lemma SlotAfterSet1(g: Group, v: nat, i: nat)
    requires i < 4 && v < 64
    ensures Slot(SetSlot(g, 1, v), i) == if i == 1 then v else Slot(g, i)
  {
    Join(g.x % 64, v % 4);
    Join(v / 4, g.y / 16);
  }

  lemma SlotAfterSet2(g: Group, v: nat, i: nat)
    requires i < 4 && v < 64
    ensures Slot(SetSlot(g, 2, v), i) == if i == 2 then v else Slot(g, i)
  {
    Join(g.y % 16, v % 16);
    Join(v / 16, g.z / 4);
  }

  lemma SlotAfterSet3(g: Group, v: nat, i: nat)
    requires i < 4 && v < 64
    ensures Slot(SetSlot(g, 3, v), i) == if i == 3 then v else Slot(g, i)
  {
    Join(g.z % 4, v);
  }

  lemma GroupPos(q: nat, s: nat)
    requires s < 4
    ensures BytePos(4 * q + s) == HEADER + 3 * q + (if s == 2 then 1 else if s == 3 then 2 else 0)
    ensures BitPos(4 * q + s) == if s == 0 then 0 else if s == 1 then 6 else if s == 2 then 4 else 2
  {
    assert 6 * (4 * q + s) == 8 * (3 * q) + 6 * s;
  }

  // The window of each of the four positions.

  lemma Window0(b0: Byte, b1: Byte)
    ensures Window(b0, b1, 0) == b0
  {
    Dm256(b1, b0);
  }

  lemma Window2(b0: Byte, b1: Byte)
    ensures Window(b0, b1, 2) == b0 / 4 + b1 % 4 * 64
  {
    Dm256(b1 / 4, b0 / 4 + 64 * (b1 % 4));
  }

  lemma Window4(b0: Byte, b1: Byte)
    ensures Window(b0, b1, 4) == b0 / 16 + b1 % 16 * 16
  {
    Dm256(b1 / 16, b0 / 16 + 16 * (b1 % 16));
  }

  lemma Window6(b0: Byte, b1: Byte)
    ensures Window(b0, b1, 6) == b0 / 64 + b1 % 64 * 4
  {
    Dm256(b1 / 64, b0 / 64 + 4 * (b1 % 64));
  }

  // The two written bytes of each of the four positions.

  lemma Write0(b0: Byte, b1: Byte, v: nat)
    requires v < 64
    ensures LowByte(b0, 0, v) == b0 / 64 * 64 + v && HighByte(b1, 0, v) == b1
  {
    Dm256(0, 64 * (b0 / 64) + v);
    Dm256(0, b1);
    assert b0 / 1 == b0;
  }

  lemma Write2(b0: Byte, b1: Byte, v: nat)
    requires v < 64
    ensures LowByte(b0, 2, v) == b0 % 4 + v * 4 && HighByte(b1, 2, v) == b1
  {
    Dm64(0, b0 / 4);
    Dm256(0, b0 % 4 + 4 * v);
    Dm64(0, v);
    Dm256(0, b1);
  }

  lemma Write4(b0: Byte, b1: Byte, v: nat)
    requires v < 64
    ensures LowByte(b0, 4, v) == b0 % 16 + v % 16 * 16
    ensures HighByte(b1, 4, v) == b1 / 4 * 4 + v / 16
  {
    Dm64(0, b0 / 16);
    Dm256(v / 16, b0 % 16 + 16 * (v % 16));
    assert b1 / 1 == b1;
    Dm256(0, 4 * (b1 / 4) + v / 16);
  }

  lemma Write6(b0: Byte, b1: Byte, v: nat)
    requires v < 64
    ensures LowByte(b0, 6, v) == b0 % 64 + v % 4 * 64
    ensures HighByte(b1, 6, v) == b1 / 16 * 16 + v / 4
  {
    Dm64(0, b0 / 64);
    Dm256(v / 4, b0 % 64 + 64 * (v % 4));
    assert b1 / 1 == b1;
    Dm256(0, 16 * (b1 / 16) + v / 4);
  }

  lemma GetIsSlot(buf: seq<Byte>, q: nat, s: nat)
    requires DenseBuf(buf) && s < 4 && q < 4096
    ensures GetReg(buf, 4 * q + s) == Slot(GroupAt(buf, HEADER + 3 * q), s)
  {
    GroupPos(q, s);
    var b0 := BytePos(4 * q + s);
    match s
    case 0 => Window0(buf[b0], buf[b0 + 1]);
    case 1 => Window6(buf[b0], buf[b0 + 1]); Join6(buf[b0], buf[b0 + 1]);
    case 2 => Window4(buf[b0], buf[b0 + 1]); Join4(buf[b0], buf[b0 + 1]);
    case _ => Window2(buf[b0], buf[b0 + 1]); Join(buf[b0] / 4, buf[b0 + 1] % 4);
  }

  /** Four registers are the base-64 digits of the three bytes they share, read as a little-endian number. */
  lemma PackedGroup(buf: seq<Byte>, q: nat)
    requires DenseBuf(buf) && q < 4096
    ensures var g := 16 + 3 * q;
      (buf[g] as int) + 256 * (buf[g + 1] as int) + 65536 * (buf[g + 2] as int) ==
      GetReg(buf, 4 * q) + 64 * GetReg(buf, 4 * q + 1) + 4096 * GetReg(buf, 4 * q + 2) + 262144 * GetReg(buf, 4 * q + 3)
  {
    GetIsSlot(buf, q, 0);
    GetIsSlot(buf, q, 1);
    GetIsSlot(buf, q, 2);
    GetIsSlot(buf, q, 3);
    GroupNumber(GroupAt(buf, HEADER + 3 * q));
  }

  lemma GroupNumber(g: Group)
    ensures (g.x as int) + 256 * (g.y as int) + 65536 * (g.z as int) ==
      Slot(g, 0) + 64 * Slot(g, 1) + 4096 * Slot(g, 2) + 262144 * Slot(g, 3)
  {
  }

  lemma Join4(b0: Byte, b1: Byte)
    ensures (b0 / 16 + b1 % 16 * 16) % 64 == b0 / 16 + b1 % 4 * 16
  {
    var a, c := b1 / 16, b1 % 16;
    var e, f := c / 4, c % 4;
    Dm4(4 * a + e, f);
    Dm64(e, b0 / 16 + 16 * f);
  }

  lemma Join6(b0: Byte, b1: Byte)
    ensures (b0 / 64 + b1 % 64 * 4) % 64 == b0 / 64 + b1 % 16 * 4
  {
    var a, c := b1 / 64, b1 % 64;
    var e, f := c / 16, c % 16;
    Dm16(4 * a + e, f);
    Dm64(e, b0 / 64 + 4 * f);
  }

  lemma SetIsSetSlot(buf: seq<Byte>, q: nat, s: nat, v: nat)
    requires DenseBuf(buf) && s < 4 && q < 4096 && v < 64
    ensures var g := HEADER + 3 * q;
      GroupAt(SetReg(buf, 4 * q + s, v), g) == SetSlot(GroupAt(buf, g), s, v)
    ensures var g := HEADER + 3 * q; forall i :: 0 <= i < |buf| && !(g <= i < g + 3) ==> SetReg(buf, 4 * q + s, v)[i] == buf[i]
  {
    GroupPos(q, s);
    var b0 := BytePos(4 * q + s);
    match s
    case 0 => Write0(buf[b0], buf[b0 + 1], v);
    case 1 => Write6(buf[b0], buf[b0 + 1], v);
    case 2 => Write4(buf[b0], buf[b0 + 1], v);
    case _ => Write2(buf[b0], buf[b0 + 1], v);
  }

  /** `out` is `buf` with one slot of one group set. */
  ghost predicate SlotSet(buf: seq<Byte>, out: seq<Byte>, q: nat, s: nat, v: nat) {
    var g := HEADER + 3 * q;
    DenseBuf(buf) && DenseBuf(out) && s < 4 && q < 4096 && v < 64 &&
    GroupAt(out, g) == SetSlot(GroupAt(buf, g), s, v) &&
    forall i :: 0 <= i < |buf| && !(g <= i < g + 3) ==> out[i] == buf[i]
  }

  lemma GetAfterSet(buf: seq<Byte>, out: seq<Byte>, q: nat, s: nat, v: nat, q': nat, s': nat)
    requires SlotSet(buf, out, q, s, v) && s' < 4 && q' < 4096
    ensures GetReg(out, 4 * q' + s') == if q == q' && s == s' then v else GetReg(buf, 4 * q' + s')
  {
    GetIsSlot(buf, q', s');
    GetIsSlot(out, q', s');
    SlotAfterSet(GroupAt(buf, HEADER + 3 * q), s, v, s');
  }

  lemma OneRegister(buf: seq<Byte>, out: seq<Byte>, reg: nat, v: nat, i: nat)
    requires reg < REGISTERS && SlotSet(buf, out, reg / 4, reg % 4, v) && i < REGISTERS
    ensures GetReg(out, i) == if i == reg then v else GetReg(buf, i)
  {
    GetAfterSet(buf, out, reg / 4, reg % 4, v, i / 4, i % 4);
  }

  lemma AllRegisters(buf: seq<Byte>, out: seq<Byte>, reg: nat, v: nat)
    requires reg < REGISTERS && SlotSet(buf, out, reg / 4, reg % 4, v)
    ensures Regs(out) == Regs(buf)[reg := v]
    ensures out[..HEADER] == buf[..HEADER] && out[HEADER + DENSE_BYTES] == buf[HEADER + DENSE_BYTES]
  {
    forall i | 0 <= i < REGISTERS
      ensures Regs(out)[i] == Regs(buf)[reg := v][i]
    {
      OneRegister(buf, out, reg, v, i);
    }
  }

  /** Packed registers are an array, and neither the header nor the terminator is touched. */
  lemma SetRegUpdates(buf: seq<Byte>, reg: nat, v: nat)
    requires DenseBuf(buf) && reg < REGISTERS && v < 64
    ensures Regs(SetReg(buf, reg, v)) == Regs(buf)[reg := v]
    ensures SetReg(buf, reg, v)[..HEADER] == buf[..HEADER]
    ensures SetReg(buf, reg, v)[HEADER + DENSE_BYTES] == buf[HEADER + DENSE_BYTES]
  {
    SetIsSetSlot(buf, reg / 4, reg % 4, v);
    AllRegisters(buf, SetReg(buf, reg, v), reg, v);
  }

  // The read as it stands.

  /** The byte a register starts in has its top bit clear, in terms of that register alone. */
  ghost predicate TopClear(s: nat, v: nat) {
    match s case 0 => true case 1 => v % 4 < 2 case 2 => v % 16 < 8 case _ => v < 32
  }

  ghost predicate BitsClear(g: Group, next: Byte, s: nat) {
    match s
    case 0 => g.x < 64
    case 1 => g.x < 128 && g.y / 16 % 4 == 0
    case 2 => g.y < 128 && g.z / 4 % 4 == 0
    case _ => g.z < 128 && next % 4 == 0
  }

  lemma Signed0(b0: Byte, b1: Byte)
    ensures SignedWindow(b0, b1, 0) == Window(b0, b1, 0) % 64 <==> b0 < 64
  {
  }

  lemma Signed2(b0: Byte, b1: Byte)
    ensures SignedWindow(b0, b1, 2) == Window(b0, b1, 2) % 64 <==> b0 < 128 && b1 % 4 == 0
  {
    Window2(b0, b1);
    Dm64(b1 % 4, b0 / 4);
  }

  lemma Signed4(b0: Byte, b1: Byte)
    ensures SignedWindow(b0, b1, 4) == Window(b0, b1, 4) % 64 <==> b0 < 128 && b1 / 4 % 4 == 0
  {
    Window4(b0, b1);
    Join4(b0, b1);
    var q, f := b1 / 4, b1 % 4;
    Dm16(q / 4, 4 * (q % 4) + f);
  }

  lemma Signed6(b0: Byte, b1: Byte)
    ensures SignedWindow(b0, b1, 6) == Window(b0, b1, 6) % 64 <==> b0 < 128 && b1 / 16 % 4 == 0
  {
    Window6(b0, b1);
    Join6(b0, b1);
    var q, f := b1 / 16, b1 % 16;
    Dm64(q / 4, 16 * (q % 4) + f);
  }

  lemma LiteralReadBits(buf: seq<Byte>, q: nat, s: nat)
    requires DenseBuf(buf) && s < 4 && q < 4096
    ensures GetRegLiteral(buf, 4 * q + s) == GetReg(buf, 4 * q + s) <==>
      BitsClear(GroupAt(buf, HEADER + 3 * q), buf[HEADER + 3 * q + 3], s)
  {
    GroupPos(q, s);
    var b0 := BytePos(4 * q + s);
    match s
    case 0 => Signed0(buf[b0], buf[b0 + 1]);
    case 1 => Signed6(buf[b0], buf[b0 + 1]);
    case 2 => Signed4(buf[b0], buf[b0 + 1]);
    case _ => Signed2(buf[b0], buf[b0 + 1]);
  }

  lemma BitsOfSlots(g: Group, s: nat)
    requires s < 3
    ensures BitsClear(g, 0, s) <==> TopClear(s, Slot(g, s)) && Slot(g, s + 1) % 4 == 0
  {
    match s
    case 0 => Join(g.x / 64, g.y % 16);
    case 1 => Join(g.x / 64, g.y % 16); Bits1(g.y, g.z);
    case _ => Bits2(g.y, g.z);
  }

  lemma Bits1(y: Byte, z: Byte)
    ensures (y / 16 + z % 4 * 16) % 4 == y / 16 % 4
  {
    Dm4(4 * (z % 4) + y / 16 / 4, y / 16 % 4);
  }

  lemma Bits2(y: Byte, z: Byte)
    ensures (y / 16 + z % 4 * 16) % 16 < 8 <==> y < 128
  {
    Join(y / 16, z % 4);
  }

  /**
   The signed, unmasked read yields the register exactly when the two garbage bits, which belong to the next
   register, are zero and the register's own first byte is not negative.
   */
  lemma LiteralReadExact(buf: seq<Byte>, reg: nat)
    requires DenseBuf(buf) && reg < REGISTERS && buf[HEADER + DENSE_BYTES] == 0
    ensures GetRegLiteral(buf, reg) == GetReg(buf, reg) <==>
      TopClear(reg % 4, Regs(buf)[reg]) && (reg + 1 < REGISTERS ==> Regs(buf)[reg + 1] % 4 == 0)
  {
    var q, s := reg / 4, reg % 4;
    LiteralReadBits(buf, q, s);
    GetIsSlot(buf, q, s);
    if s < 3 {
      GetIsSlot(buf, q, s + 1);
      BitsOfSlots(GroupAt(buf, HEADER + 3 * q), s);
    } else if q < 4095 {
      GetIsSlot(buf, q + 1, 0);
      Low2(buf[HEADER + 3 * q + 3]);
    }
  }

  /** After one add of a rank not divisible by 4 to an empty string, the register before is misread. */
  lemma LiteralReadFails(buf: seq<Byte>, reg: nat, v: nat)
    requires DenseBuf(buf) && buf[HEADER + DENSE_BYTES] == 0 && reg + 1 < REGISTERS && v < 64 && v % 4 != 0
    requires forall i :: 0 <= i < REGISTERS ==> Regs(buf)[i] == 0
    ensures GetRegLiteral(SetReg(buf, reg + 1, v), reg) != 0 == Regs(SetReg(buf, reg + 1, v))[reg]
  {
    SetRegUpdates(buf, reg + 1, v);
    LiteralReadExact(SetReg(buf, reg + 1, v), reg);
  }

  lemma Low2(b: Byte)
    ensures b % 64 % 4 == b % 4
  {
    var a, c := b / 64, b % 64;
    Dm4(16 * a + c / 4, c % 4);
  }
}
