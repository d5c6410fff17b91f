/** The dense registers as hyperloglog.cpp reads and writes them: signed characters, no mask, and values beyond six bits. */
module HllSpill {
  import opened Bytes
  import opened HllDense

  // Reading.

  /** What the literal read makes of a register, of the one after it and of its place among the four of a group. */
  function LitVal(own: nat, next: nat, s: nat): nat {
    match s
    case 0 => own + 64 * (next % 4)
    case 1 => if own % 4 >= 2 then 252 + own % 4 else own + 64 * (next % 4)
    case 2 => if own % 16 >= 8 then 240 + own % 16 else own + 64 * (next % 4)
    case _ => if own >= 32 then 192 + own else own + 64 * (next % 4)
  }

  lemma LitVal0(x: Byte, y: Byte)
    ensures SignedWindow(x, y, 0) == LitVal(x % 64, x / 64 + y % 16 * 4, 0)
  {
    Window0(x, y);
    Dm4(y % 16, x / 64);
  }

  lemma LitVal1(x: Byte, y: Byte, z: Byte)
    ensures SignedWindow(x, y, 6) == LitVal(x / 64 + y % 16 * 4, y / 16 + z % 4 * 16, 1)
  {
    Dm4(y % 16, x / 64);
    var q, r := y / 16, y % 16;
    Dm4(4 * (z % 4) + q / 4, q % 4);
    Dm64(q / 4, 16 * (q % 4) + r);
    Window6(x, y);
  }

  lemma LitVal2(y: Byte, z: Byte)
    ensures SignedWindow(y, z, 4) == LitVal(y / 16 + z % 4 * 16, z / 4, 2)
  {
    Dm16(z % 4, y / 16);
    var q, r := z / 4, z % 4;
    Dm16(q / 4, 4 * (q % 4) + r);
    Window4(y, z);
  }

  lemma LitVal3(z: Byte, x: Byte)
    ensures SignedWindow(z, x, 2) == LitVal(z / 4, x % 64, 3) == LitVal(z / 4, x, 3)
  {
    Low2(x);
    Window2(z, x);
  }

  /** The register after `reg`, or the terminator. */
  ghost function NextOf(buf: seq<Byte>, reg: nat): nat
    requires DenseBuf(buf) && reg < REGISTERS
  {
    if reg + 1 < REGISTERS then GetReg(buf, reg + 1) else buf[HEADER + DENSE_BYTES]
  }

  /** The literal read in terms of the group's bytes and the byte after them. */
  ghost function LitSlot(g: Group, x: Byte, s: nat): nat {
    match s
    case 0 => SignedWindow(g.x, g.y, 0)
    case 1 => SignedWindow(g.x, g.y, 6)
    case 2 => SignedWindow(g.y, g.z, 4)
    case _ => SignedWindow(g.z, x, 2)
  }

  lemma LiteralIsLitSlot(buf: seq<Byte>, q: nat, s: nat)
    requires DenseBuf(buf) && s < 4 && q < 4096
    ensures GetRegLiteral(buf, 4 * q + s) == LitSlot(GroupAt(buf, HEADER + 3 * q), buf[HEADER + 3 * q + 3], s)
  {
    GroupPos(q, s);
  }

  lemma LitSlotIs(g: Group, x: Byte, s: nat)
    requires s < 4
    ensures LitSlot(g, x, s) == LitVal(Slot(g, s), if s < 3 then Slot(g, s + 1) else x, s)
    ensures s == 3 ==> LitSlot(g, x, s) == LitVal(Slot(g, s), x % 64, s)
  {
    match s
    case 0 => LitVal0(g.x, g.y);
    case 1 => LitVal1(g.x, g.y, g.z);
    case 2 => LitVal2(g.y, g.z);
    case _ => LitVal3(g.z, x);
  }

  lemma NextIs(buf: seq<Byte>, q: nat, s: nat)
    requires DenseBuf(buf) && s < 4 && q < 4096
    ensures var g, x := GroupAt(buf, HEADER + 3 * q), buf[HEADER + 3 * q + 3];
      NextOf(buf, 4 * q + s) == if s < 3 then Slot(g, s + 1) else if q < 4095 then x % 64 else x
  {
    if s < 3 {
      GetIsSlot(buf, q, s + 1);
    } else if q < 4095 {
      GetIsSlot(buf, q + 1, 0);
    }
  }

  lemma LiteralReadAt(buf: seq<Byte>, q: nat, s: nat)
    requires DenseBuf(buf) && s < 4 && q < 4096
    ensures GetRegLiteral(buf, 4 * q + s) == LitVal(GetReg(buf, 4 * q + s), NextOf(buf, 4 * q + s), s)
  {
    LiteralIsLitSlot(buf, q, s);
    LitSlotIs(GroupAt(buf, HEADER + 3 * q), buf[HEADER + 3 * q + 3], s);
    GetIsSlot(buf, q, s);
    NextIs(buf, q, s);
  }

  lemma LiteralReadIs(buf: seq<Byte>, reg: nat)
    requires DenseBuf(buf) && reg < REGISTERS
    ensures GetRegLiteral(buf, reg) == LitVal(GetReg(buf, reg), NextOf(buf, reg), reg % 4)
  {
    LiteralReadAt(buf, reg / 4, reg % 4);
  }

  /** A misread is beyond every register value. */
  lemma MisreadLarge(own: nat, next: nat, s: nat)
    requires own < 64
    ensures LitVal(own, next, s) < 256
    ensures LitVal(own, next, s) != own ==> LitVal(own, next, s) >= 64
  {
  }

  // Writing a value of up to eight bits: six replace the register, two are or'ed into what follows it.

  /** Bitwise or of two-bit numbers. */
  function Or2(a: nat, b: nat): (r: nat)
    requires a < 4 && b < 4
    ensures r < 4
  {
    if a == b || b == 0 then a else if a == 0 then b else 3
  }

  /** The byte in which the register starts, after set_reg. */
  function LowWide(b0: Byte, fb: nat, v: Byte): Byte {
    match fb
    case 0 => v % 64 + 64 * Or2(b0 / 64, v / 64)
    case 2 => b0 % 4 + v % 64 * 4
    case 4 => b0 % 16 + v % 16 * 16
    case _ => b0 % 64 + v % 4 * 64
  }

  /** The byte after it. */
  function HighWide(b1: Byte, fb: nat, v: Byte): Byte {
    match fb
    case 0 => b1
    case 2 => b1 / 4 * 4 + Or2(b1 % 4, v / 64)
    case 4 => b1 / 16 * 16 + Or2(b1 / 4 % 4, v / 64) * 4 + v / 16 % 4
    case _ => b1 / 64 * 64 + Or2(b1 / 16 % 4, v / 64) * 16 + v / 4 % 16
  }

  /** set_reg for any value of eight bits. */
  function SetRegWide(buf: seq<Byte>, reg: nat, v: Byte): (out: seq<Byte>)
    requires DenseBuf(buf) && reg < REGISTERS
    ensures |out| == |buf|
  {
    InBuffer(reg);
    var b0, fb := BytePos(reg), BitPos(reg);
    buf[b0 := LowWide(buf[b0], fb, v)][b0 + 1 := HighWide(buf[b0 + 1], fb, v)]
  }

  lemma Narrow(b0: Byte, b1: Byte, fb: nat, v: Byte)
    requires v < 64 && (fb == 0 || fb == 2 || fb == 4 || fb == 6)
    ensures LowWide(b0, fb, v) == LowByte(b0, fb, v) && HighWide(b1, fb, v) == HighByte(b1, fb, v)
  {
    match fb
    case 0 => Narrow0(b0, b1, v);
    case 2 => Narrow2(b0, b1, v);
    case 4 => Narrow4(b0, b1, v);
    case _ => Narrow6(b0, b1, v);
  }

  lemma Narrow0(b0: Byte, b1: Byte, v: Byte)
    requires v < 64
    ensures LowWide(b0, 0, v) == LowByte(b0, 0, v) && HighWide(b1, 0, v) == HighByte(b1, 0, v)
  {
    Dm64(0, v);
    Write0(b0, b1, v);
  }

  lemma Narrow2(b0: Byte, b1: Byte, v: Byte)
    requires v < 64
    ensures LowWide(b0, 2, v) == LowByte(b0, 2, v) && HighWide(b1, 2, v) == HighByte(b1, 2, v)
  {
    Dm64(0, v);
    Write2(b0, b1, v);
  }

  lemma Narrow4(b0: Byte, b1: Byte, v: Byte)
    requires v < 64
    ensures LowWide(b0, 4, v) == LowByte(b0, 4, v) && HighWide(b1, 4, v) == HighByte(b1, 4, v)
  {
    Dm64(0, v);
    Dm4(0, v / 16);
    Write4(b0, b1, v);
    Quarter(b1);
  }

  lemma Narrow6(b0: Byte, b1: Byte, v: Byte)
    requires v < 64
    ensures LowWide(b0, 6, v) == LowByte(b0, 6, v) && HighWide(b1, 6, v) == HighByte(b1, 6, v)
  {
    Dm64(0, v);
    Dm16(0, v / 4);
    Write6(b0, b1, v);
    Sixteenth(b1);
  }

  lemma Quarter(b: Byte)
    ensures b / 16 * 16 + b / 4 % 4 * 4 == b / 4 * 4
  {
    Dm4(b / 16, b / 4 % 4);
  }

  lemma Sixteenth(b: Byte)
    ensures b / 64 * 64 + b / 16 % 4 * 16 == b / 16 * 16
  {
    Dm4(b / 64, b / 16 % 4);
  }

  /** On values of six bits this is set_reg as defined for them. */
  lemma SetRegNarrow(buf: seq<Byte>, reg: nat, v: Byte)
    requires DenseBuf(buf) && reg < REGISTERS && v < 64
    ensures SetRegWide(buf, reg, v) == SetReg(buf, reg, v)
  {
    InBuffer(reg);
    GroupPos(reg / 4, reg % 4);
    var b0 := BytePos(reg);
    Narrow(buf[b0], buf[b0 + 1], BitPos(reg), v);
  }

  // In terms of registers.

  /** The register with two bits or'ed in. */
  function OrLow(x: nat, e: nat): nat
    requires e < 4
  {
    x - x % 4 + Or2(x % 4, e)
  }

  /** The group of bytes, and the byte after it, with slot s written. */
  ghost function WideGroup(g: Group, s: nat, v: Byte): Group {
    match s
    case 0 => g.(x := LowWide(g.x, 0, v))
    case 1 => g.(x := LowWide(g.x, 6, v), y := HighWide(g.y, 6, v))
    case 2 => g.(y := LowWide(g.y, 4, v), z := HighWide(g.z, 4, v))
    case _ => g.(z := LowWide(g.z, 2, v))
  }

  ghost function WideNext(x: Byte, s: nat, v: Byte): Byte {
    if s == 3 then HighWide(x, 2, v) else x
  }

  /** Slot i after slot s was written. */
  ghost function WideSlot(g: Group, s: nat, v: Byte, i: nat): nat {
    if i == s then v % 64 else if i == s + 1 then OrLow(Slot(g, i), v / 64) else Slot(g, i)
  }

  lemma WideSlot0(g: Group, v: Byte, i: nat)
    requires i < 4
    ensures Slot(WideGroup(g, 0, v), i) == WideSlot(g, 0, v, i)
  {
    Dm64(Or2(g.x / 64, v / 64), v % 64);
    Dm4(g.y % 16, g.x / 64);
  }

  lemma WideSlot1(g: Group, v: Byte, i: nat)
    requires i < 4
    ensures Slot(WideGroup(g, 1, v), i) == WideSlot(g, 1, v, i)
  {
    var e, q := v / 64, g.y / 16;
    Dm64(v % 4, g.x % 64);
    Dm16(q / 4 * 4 + Or2(q % 4, e), v / 4 % 16);
    Dm4(4 * (g.z % 4) + q / 4, q % 4);
    Sixteenth(g.y);
    SixBits(v);
  }

  lemma SixBits(v: Byte)
    ensures v % 64 == v % 4 + v / 4 % 16 * 4 && v % 64 == v % 16 + v / 16 % 4 * 16
  {
    var a, r := v / 64, v % 64;
    var c, d, f, h := r / 4, r % 4, r / 16, r % 16;
    Dm4(16 * a + c, d);
    Dm16(a, c);
    Dm16(4 * a + f, h);
    Dm4(a, f);
  }

  lemma WideSlot2(g: Group, v: Byte, i: nat)
    requires i < 4
    ensures Slot(WideGroup(g, 2, v), i) == WideSlot(g, 2, v, i)
  {
    var e, q := v / 64, g.z / 4;
    Dm16(v % 16, g.y % 16);
    Dm4(q / 4 * 4 + Or2(q % 4, e), v / 16 % 4);
    Quarter(g.z);
    SixBits(v);
  }

  lemma WideSlot3(g: Group, v: Byte, i: nat)
    requires i < 4
    ensures Slot(WideGroup(g, 3, v), i) == WideSlot(g, 3, v, i)
  {
    Dm4(v % 64, g.z % 4);
  }

  lemma WideNextSlot(x: Byte, v: Byte)
    ensures var x' := WideNext(x, 3, v); x' % 64 == OrLow(x % 64, v / 64) && x' / 64 == x / 64
  {
    var a, r := x / 64, x % 64;
    var c, t, o := r / 4, r % 4, Or2(x % 4, v / 64);
    Dm4(16 * a + c, t);
    Dm64(a, 4 * c + o);
  }

  /** `out` is `buf` with slot s of group q written. */
  ghost predicate WideSet(buf: seq<Byte>, out: seq<Byte>, q: nat, s: nat, v: Byte) {
    var g := HEADER + 3 * q;
    DenseBuf(buf) && DenseBuf(out) && s < 4 && q < 4096 &&
    GroupAt(out, g) == WideGroup(GroupAt(buf, g), s, v) && out[g + 3] == WideNext(buf[g + 3], s, v) &&
    forall i :: 0 <= i < |buf| && !(g <= i <= g + 3) ==> out[i] == buf[i]
  }

  lemma SetIsWideSet(buf: seq<Byte>, q: nat, s: nat, v: Byte)
    requires DenseBuf(buf) && s < 4 && q < 4096
    ensures WideSet(buf, SetRegWide(buf, 4 * q + s, v), q, s, v)
  {
    GroupPos(q, s);
    InBuffer(4 * q + s);
  }

  lemma WideSlotIs(g: Group, s: nat, v: Byte, i: nat)
    requires s < 4 && i < 4
    ensures Slot(WideGroup(g, s, v), i) == WideSlot(g, s, v, i)
  {
    match s
    case 0 => WideSlot0(g, v, i);
    case 1 => WideSlot1(g, v, i);
    case 2 => WideSlot2(g, v, i);
    case _ => WideSlot3(g, v, i);
  }

  /** A register after the write. */
  ghost function Spilled(r: nat, i: nat, reg: nat, v: Byte): nat {
    if i == reg then v % 64 else if i == reg + 1 then OrLow(r, v / 64) else r
  }

  lemma SameGroup(buf: seq<Byte>, out: seq<Byte>, q: nat, s: nat, v: Byte, i: nat)
    requires WideSet(buf, out, q, s, v) && i < 4
    ensures GetReg(out, 4 * q + i) == Spilled(GetReg(buf, 4 * q + i), 4 * q + i, 4 * q + s, v)
  {
    GetIsSlot(buf, q, i);
    GetIsSlot(out, q, i);
    WideSlotIs(GroupAt(buf, HEADER + 3 * q), s, v, i);
  }

  lemma NextGroup(buf: seq<Byte>, out: seq<Byte>, q: nat, s: nat, v: Byte, i: nat)
    requires WideSet(buf, out, q, s, v) && i < 4 && q < 4095
    ensures GetReg(out, 4 * (q + 1) + i) == Spilled(GetReg(buf, 4 * (q + 1) + i), 4 * (q + 1) + i, 4 * q + s, v)
  {
    GetIsSlot(buf, q + 1, i);
    GetIsSlot(out, q + 1, i);
    var g := HEADER + 3 * (q + 1);
    NextSlot(GroupAt(buf, g), s, v, i);
    assert GroupAt(out, g) == GroupAt(buf, g).(x := WideNext(buf[g], s, v));
  }

  /** Only the first slot of the next group can change, and only when the last slot was written. */
  lemma NextSlot(g: Group, s: nat, v: Byte, i: nat)
    requires i < 4
    ensures Slot(g.(x := WideNext(g.x, s, v)), i) == if s == 3 && i == 0 then OrLow(Slot(g, 0), v / 64) else Slot(g, i)
  {
    WideNextSlot(g.x, v);
  }

  lemma OtherGroup(buf: seq<Byte>, out: seq<Byte>, q: nat, s: nat, v: Byte, q': nat, i: nat)
    requires WideSet(buf, out, q, s, v) && i < 4 && q' < 4096 && q' != q && q' != q + 1
    ensures GetReg(out, 4 * q' + i) == GetReg(buf, 4 * q' + i)
  {
    GetIsSlot(buf, q', i);
    GetIsSlot(out, q', i);
  }

  lemma SpillGroups(buf: seq<Byte>, out: seq<Byte>, q: nat, s: nat, v: Byte, q': nat, i: nat)
    requires WideSet(buf, out, q, s, v) && q' < 4096 && i < 4
    ensures GetReg(out, 4 * q' + i) == Spilled(GetReg(buf, 4 * q' + i), 4 * q' + i, 4 * q + s, v)
  {
    if q' == q {
      SameGroup(buf, out, q, s, v, i);
    } else if q' == q + 1 {
      NextGroup(buf, out, q, s, v, i);
    } else {
      OtherGroup(buf, out, q, s, v, q', i);
    }
  }

  lemma SpillSlots(buf: seq<Byte>, q: nat, s: nat, v: Byte, q': nat, i: nat)
    requires DenseBuf(buf) && q < 4096 && s < 4 && q' < 4096 && i < 4
    ensures GetReg(SetRegWide(buf, 4 * q + s, v), 4 * q' + i) == Spilled(GetReg(buf, 4 * q' + i), 4 * q' + i, 4 * q + s, v)
  {
    SetIsWideSet(buf, q, s, v);
    SpillGroups(buf, SetRegWide(buf, 4 * q + s, v), q, s, v, q', i);
  }

  lemma SpillAt(buf: seq<Byte>, reg: nat, v: Byte, i: nat)
    requires DenseBuf(buf) && reg < REGISTERS && i < REGISTERS
    ensures GetReg(SetRegWide(buf, reg, v), i) == Spilled(GetReg(buf, i), i, reg, v)
  {
    var q, s, q', s' := reg / 4, reg % 4, i / 4, i % 4;
    assert reg == 4 * q + s && i == 4 * q' + s';
    SpillSlots(buf, q, s, v, q', s');
  }

  /** The header stays, and the terminator is reached from the last register only. */
  lemma SpillEnd(buf: seq<Byte>, reg: nat, v: Byte)
    requires DenseBuf(buf) && reg < REGISTERS && buf[HEADER + DENSE_BYTES] == 0
    ensures SetRegWide(buf, reg, v)[..HEADER] == buf[..HEADER]
    ensures SetRegWide(buf, reg, v)[HEADER + DENSE_BYTES] == if reg == REGISTERS - 1 then v / 64 else 0
  {
    var q, s := reg / 4, reg % 4;
    SetIsWideSet(buf, q, s, v);
  }

  // hll_merge as written.

  ghost function At(r: seq<nat>, i: nat): nat { if i < |r| then r[i] else 0 }

  /** A vector of registers below 64. */
  ghost predicate Six(r: seq<nat>) { |r| == REGISTERS && forall i :: 0 <= i < |r| ==> r[i] < 64 }

  /** The lower six bits of a literal read: sign extension fills the upper ones of a register split over two bytes. */
  ghost function LowSix(x: nat, s: nat): nat {
    match s
    case 1 => if TopClear(1, x) then x else 60 + x % 4
    case 2 => if TopClear(2, x) then x else 48 + x % 16
    case _ => x
  }

  /** The two bits above them: the lower bits of the next register, or both set by sign extension. */
  ghost function Top(own: nat, next: nat, s: nat): (t: nat)
    ensures t < 4
  {
    if TopClear(s, own) then next % 4 else 3
  }

  lemma LitValIs(own: nat, next: nat, s: nat)
    requires own < 64 && s < 4
    ensures LitVal(own, next, s) == 64 * Top(own, next, s) + LowSix(own, s)
    ensures LowSix(own, s) < 64 && LitVal(own, next, s) % 64 == LowSix(own, s)
  {
  }

  /**
   The two bits that run over into register i: the larger of what both reads of the register before have above their six
   bits. Those are the lower bits of the two registers i, or both set where sign extension has filled them.
   */
  ghost function RunOver(d: seq<nat>, s: seq<nat>, i: nat): (e: nat)
    requires Six(d) && Six(s) && i < REGISTERS
    ensures e < 4
  {
    if i == 0 then 0
    else if TopClear((i - 1) % 4, d[i - 1]) && TopClear((i - 1) % 4, s[i - 1]) then Max(d[i] % 4, s[i] % 4)
    else 3
  }

  /** What hll_merge finds in register i of the destination, from registers i - 1 and i of the two strings alone. */
  ghost function Held(d: seq<nat>, s: seq<nat>, i: nat): nat
    requires Six(d) && Six(s) && i < REGISTERS
  {
    OrLow(d[i], RunOver(d, s, i))
  }

  lemma OrLowUp(d: nat, e: nat)
    requires e < 4
    ensures OrLow(d, e) / 4 == d / 4 && OrLow(d, e) % 4 >= d % 4
  {
    Dm4(d / 4, Or2(d % 4, e));
  }

  /** Two bits run over into a register make a difference to sign extension in the second slot only. */
  lemma TopOfOr(x: nat, e: nat, slot: nat)
    requires x < 64 && e < 4 && slot < 4
    ensures TopClear(slot, OrLow(x, e)) <==> TopClear(slot, x) && (slot == 1 ==> e < 2)
  {
    Dm4(x / 4, Or2(x % 4, e));
    if slot == 2 {
      OrLowTop(x, e);
    }
  }

  lemma OrLowTop(x: nat, e: nat)
    requires e < 4
    ensures OrLow(x, e) / 4 % 4 == x / 4 % 4 && (OrLow(x, e) % 16 < 8 <==> x % 16 < 8)
  {
    OrLowUp(x, e);
    Sixteenths(x);
    Sixteenths(OrLow(x, e));
  }

  lemma Sixteenths(x: nat)
    ensures x % 16 == 4 * (x / 4 % 4) + x % 4
  {
  }

  lemma LargerTop(t: nat, l: nat, t': nat, l': nat)
    requires l < 64 && l' < 64
    ensures Max(64 * t + l, 64 * t' + l') / 64 == Max(t, t')
  {
    Dm64(t, l);
    Dm64(t', l');
  }

  lemma LargerTops(d: nat, e: nat, dn: nat, s: nat, sn: nat, slot: nat)
    requires d < 64 && e < 4 && s < 64 && slot < 4 && (slot == 1 ==> e == Max(d % 4, s % 4))
    ensures Max(Top(OrLow(d, e), dn, slot), Top(s, sn, slot)) ==
      if TopClear(slot, d) && TopClear(slot, s) then Max(dn % 4, sn % 4) else 3
  {
    TopOfOr(d, e, slot);
  }

  lemma LargerRead(d: nat, e: nat, dn: nat, s: nat, sn: nat, slot: nat)
    requires d < 64 && e < 4 && s < 64 && slot < 4 && (slot == 1 ==> e == Max(d % 4, s % 4))
    ensures Max(LitVal(OrLow(d, e), dn, slot), LitVal(s, sn, slot)) / 64 ==
      if TopClear(slot, d) && TopClear(slot, s) then Max(dn % 4, sn % 4) else 3
  {
    var x := OrLow(d, e);
    OrLowUp(d, e);
    LitValIs(x, dn, slot);
    LitValIs(s, sn, slot);
    LargerTop(Top(x, dn, slot), LowSix(x, slot), Top(s, sn, slot), LowSix(s, slot));
    LargerTops(d, e, dn, s, sn, slot);
  }

  lemma OrNothing(x: nat)
    ensures OrLow(x, 0) == x
  {
  }

  /** What hll_merge writes to register i: the larger of the two reads. */
  ghost function Put(d: seq<nat>, s: seq<nat>, i: nat): (v: nat)
    requires Six(d) && Six(s) && i < REGISTERS
    ensures v < 256
  {
    OrLowUp(d[i], RunOver(d, s, i));
    MisreadLarge(Held(d, s, i), At(d, i + 1), i % 4);
    MisreadLarge(s[i], At(s, i + 1), i % 4);
    Max(LitVal(Held(d, s, i), At(d, i + 1), i % 4), LitVal(s[i], At(s, i + 1), i % 4))
  }

  /** What is put into register i has the larger of both tops above its six bits. */
  lemma PutTop(d: seq<nat>, s: seq<nat>, i: nat)
    requires Six(d) && Six(s) && i < REGISTERS - 1
    ensures Put(d, s, i) / 64 == RunOver(d, s, i + 1)
  {
    LargerRead(d[i], RunOver(d, s, i), d[i + 1], s[i], s[i + 1], i % 4);
  }

  /** The registers when i of them have been merged. */
  ghost predicate Halfway(d: seq<nat>, s: seq<nat>, r: seq<nat>, i: nat) {
    Six(d) && Six(s) && Six(r) && i <= REGISTERS &&
    forall j :: 0 <= j < REGISTERS ==> r[j] == if j < i then Put(d, s, j) % 64 else if j == i then Held(d, s, j) else d[j]
  }

  /** The source's read is the larger one, which sets `changed`. */
  ghost predicate Beats(d: seq<nat>, s: seq<nat>, i: nat)
    requires Six(d) && Six(s) && i < REGISTERS
  {
    LitVal(Held(d, s, i), At(d, i + 1), i % 4) < LitVal(s[i], At(s, i + 1), i % 4)
  }

  /** One of the first n registers is beaten. */
  ghost predicate Beaten(d: seq<nat>, s: seq<nat>, n: nat)
    requires Six(d) && Six(s) && n <= REGISTERS
  {
    exists i :: 0 <= i < n && Beats(d, s, i)
  }

  /** A buffer that the loop has left with register n next. */
  ghost predicate MergedUpTo(dest: seq<Byte>, src: seq<Byte>, out: seq<Byte>, n: nat) {
    var merged := DenseBuf(dest) && DenseBuf(src) && DenseBuf(out) && out[..HEADER] == dest[..HEADER] &&
      Halfway(Regs(dest), Regs(src), Regs(out), n) && (n < REGISTERS ==> out[HEADER + DENSE_BYTES] == 0);
    merged
  }

  lemma MergedNone(dest: seq<Byte>, src: seq<Byte>)
    requires DenseBuf(dest) && DenseBuf(src) && dest[HEADER + DENSE_BYTES] == 0
    ensures MergedUpTo(dest, src, dest, 0) && !Beaten(Regs(dest), Regs(src), 0)
  {
    OrNothing(Regs(dest)[0]);
  }

  lemma BeatenStep(d: seq<nat>, s: seq<nat>, n: nat)
    requires Six(d) && Six(s) && n < REGISTERS
    ensures Beaten(d, s, n + 1) <==> Beaten(d, s, n) || Beats(d, s, n)
  {
  }

  /** The loop of hll_merge; the last register may run over into the terminator. */
  method MergeAsWritten(dest: seq<Byte>, src: seq<Byte>) returns (out: seq<Byte>, changed: bool)
    requires DenseBuf(dest) && DenseBuf(src) && dest[HEADER + DENSE_BYTES] == 0 && src[HEADER + DENSE_BYTES] == 0
    ensures MergedUpTo(dest, src, out, REGISTERS) && (changed <==> Beaten(Regs(dest), Regs(src), REGISTERS))
    ensures out[HEADER + DENSE_BYTES] == 0 <==> LastClear(Regs(dest)) && LastClear(Regs(src))
  {
    out, changed := dest, false;
    MergedNone(dest, src);
    var reg := 0;
    while reg < REGISTERS
      invariant reg <= REGISTERS && MergedUpTo(dest, src, out, reg) && (changed <==> Beaten(Regs(dest), Regs(src), reg))
      invariant reg == REGISTERS ==> (out[HEADER + DENSE_BYTES] == 0 <==> LastClear(Regs(dest)) && LastClear(Regs(src)))
    {
      var larger;
      out, larger := MergeOne(out, dest, src, reg);
      BeatenStep(Regs(dest), Regs(src), reg);
      changed, reg := changed || larger, reg + 1;
    }
  }

  method MergeOne(buf: seq<Byte>, ghost dest: seq<Byte>, src: seq<Byte>, reg: nat) returns (out: seq<Byte>, larger: bool)
    requires reg < REGISTERS && MergedUpTo(dest, src, buf, reg) && src[HEADER + DENSE_BYTES] == 0
    ensures MergedUpTo(dest, src, out, reg + 1) && larger == Beats(Regs(dest), Regs(src), reg)
    ensures reg == REGISTERS - 1 ==> (out[HEADER + DENSE_BYTES] == 0 <==> LastClear(Regs(dest)) && LastClear(Regs(src)))
  {
    var r1, r2 := GetRegLiteral(buf, reg), GetRegLiteral(src, reg);
    larger := r1 < r2;
    var v := if r1 < r2 then r2 else r1;
    PutIs(buf, dest, src, reg);
    out := SetRegWide(buf, reg, v);
    HalfwayStep(buf, dest, src, reg, v);
    SpillEnd(buf, reg, v);
    if reg == REGISTERS - 1 {
      PutLast(Regs(dest), Regs(src));
    }
  }

  /** The last register is not sign extended. */
  ghost predicate LastClear(r: seq<nat>)
    requires Six(r)
  {
    TopClear(3, r[REGISTERS - 1])
  }

  lemma PutLast(d: seq<nat>, s: seq<nat>)
    requires Six(d) && Six(s)
    ensures Put(d, s, REGISTERS - 1) / 64 == 0 <==> LastClear(d) && LastClear(s)
  {
    var i := REGISTERS - 1;
    LargerRead(d[i], RunOver(d, s, i), 0, s[i], 0, 3);
  }

  lemma PutIs(buf: seq<Byte>, dest: seq<Byte>, src: seq<Byte>, reg: nat)
    requires DenseBuf(dest) && DenseBuf(src) && DenseBuf(buf) && reg < REGISTERS
    requires buf[HEADER + DENSE_BYTES] == 0 && src[HEADER + DENSE_BYTES] == 0
    requires Halfway(Regs(dest), Regs(src), Regs(buf), reg)
    ensures var r1, r2 := GetRegLiteral(buf, reg), GetRegLiteral(src, reg);
      Put(Regs(dest), Regs(src), reg) == (if r1 < r2 then r2 else r1) && (r1 < r2 <==> Beats(Regs(dest), Regs(src), reg))
  {
    LiteralReadIs(buf, reg);
    LiteralReadIs(src, reg);
    assert reg + 1 < REGISTERS ==> Regs(buf)[reg + 1] == Regs(dest)[reg + 1];
  }

  lemma HalfwayStep(buf: seq<Byte>, dest: seq<Byte>, src: seq<Byte>, reg: nat, v: Byte)
    requires DenseBuf(dest) && DenseBuf(src) && DenseBuf(buf) && reg < REGISTERS
    requires Halfway(Regs(dest), Regs(src), Regs(buf), reg) && v == Put(Regs(dest), Regs(src), reg)
    ensures Halfway(Regs(dest), Regs(src), Regs(SetRegWide(buf, reg, v)), reg + 1)
  {
    var d, s, r := Regs(dest), Regs(src), Regs(SetRegWide(buf, reg, v));
    forall j | 0 <= j < REGISTERS
      ensures r[j] == if j < reg + 1 then Put(d, s, j) % 64 else if j == reg + 1 then Held(d, s, j) else d[j]
    {
      SpillAt(buf, reg, v, j);
      if j == reg + 1 {
        PutTop(d, s, reg);
      }
    }
  }

  /** The literal read of register i gives its value. */
  ghost predicate Readable(r: seq<nat>, i: nat)
    requires i < |r|
  {
    LitVal(r[i], At(r, i + 1), i % 4) == r[i]
  }

  ghost predicate AllReadable(r: seq<nat>) { forall i :: 0 <= i < |r| ==> Readable(r, i) }

  /** That is: the next register is divisible by 4, and the register's first byte has its top bit clear. */
  lemma ReadableIs(r: seq<nat>, i: nat)
    requires i < |r| && r[i] < 64
    ensures Readable(r, i) <==> TopClear(i % 4, r[i]) && (i + 1 < |r| ==> r[i + 1] % 4 == 0)
  {
  }

  lemma LiteralRead(buf: seq<Byte>, reg: nat)
    requires DenseBuf(buf) && reg < REGISTERS && buf[HEADER + DENSE_BYTES] == 0
    ensures GetRegLiteral(buf, reg) == LitVal(Regs(buf)[reg], At(Regs(buf), reg + 1), reg % 4)
    ensures GetRegLiteral(buf, reg) == Regs(buf)[reg] <==> Readable(Regs(buf), reg)
    ensures !Readable(Regs(buf), reg) ==> GetRegLiteral(buf, reg) >= 64
  {
    LiteralReadIs(buf, reg);
    MisreadLarge(Regs(buf)[reg], At(Regs(buf), reg + 1), reg % 4);
  }

  /** The source's read wins, its register is the larger one and was not filled up; or what is held is the larger one. */
  ghost predicate Fair(d: seq<nat>, s: seq<nat>, i: nat)
    requires Six(d) && Six(s) && i < REGISTERS
  {
    if Beats(d, s, i) then d[i] <= s[i] && LowSix(s[i], i % 4) == s[i]
    else LowSix(Held(d, s, i), i % 4) == Max(d[i], s[i])
  }

  /** A register filled up to a larger one of the destination does not win: that one is read with all upper bits set too. */
  lemma NoCoincidence(d: nat, e: nat, s: nat, dn: nat, sn: nat, slot: nat)
    requires d < 64 && s < 64 && e < 4 && slot < 4 && s < d && LowSix(s, slot) == d
    ensures LitVal(OrLow(d, e), dn, slot) >= LitVal(s, sn, slot)
  {
    var x := OrLow(d, e);
    OrLowUp(d, e);
    if slot == 1 {
      assert d == 60 + s % 4 && x == 60 + x % 4;
    } else {
      assert slot == 2 && d == 48 + s % 16 && x == 48 + x % 16;
    }
  }

  lemma FairIs(d: seq<nat>, s: seq<nat>, i: nat)
    requires Six(d) && Six(s) && i < REGISTERS
    ensures PutRight(d, s, i) <==> Fair(d, s, i)
  {
    var x, e := Held(d, s, i), RunOver(d, s, i);
    OrLowUp(d[i], e);
    LitValIs(x, At(d, i + 1), i % 4);
    LitValIs(s[i], At(s, i + 1), i % 4);
    if s[i] < d[i] && LowSix(s[i], i % 4) == d[i] {
      NoCoincidence(d[i], e, s[i], At(d, i + 1), At(s, i + 1), i % 4);
    }
  }

  /**
   hll_merge as written leaves the larger register everywhere exactly when every register is fair, which the registers
   next to it and itself decide.
   */
  lemma LiteralMergeExact(d: seq<nat>, s: seq<nat>, r: seq<nat>)
    requires Halfway(d, s, r, REGISTERS)
    ensures (forall i :: 0 <= i < REGISTERS ==> r[i] == Max(d[i], s[i])) <==> (forall i :: 0 <= i < REGISTERS ==> Fair(d, s, i))
  {
    forall i | 0 <= i < REGISTERS
      ensures r[i] == Max(d[i], s[i]) <==> Fair(d, s, i)
    {
      FairIs(d, s, i);
    }
  }

  /** hll_merge reads the right values at register i. */
  ghost predicate ReadRight(d: seq<nat>, s: seq<nat>, i: nat)
    requires Six(d) && Six(s) && i < REGISTERS
  {
    LitVal(Held(d, s, i), At(d, i + 1), i % 4) == d[i] && Readable(s, i)
  }

  /** It leaves the right value there. */
  ghost predicate PutRight(d: seq<nat>, s: seq<nat>, i: nat)
    requires Six(d) && Six(s) && i < REGISTERS
  {
    Put(d, s, i) % 64 == Max(d[i], s[i])
  }

  lemma NoRunOver(d: seq<nat>, s: seq<nat>, i: nat)
    requires Six(d) && Six(s) && i < REGISTERS && (i > 0 ==> Readable(d, i - 1) && Readable(s, i - 1))
    ensures RunOver(d, s, i) == 0
  {
    if i > 0 {
      ReadableIs(d, i - 1);
      ReadableIs(s, i - 1);
    }
  }

  lemma HeldRight(d: seq<nat>, s: seq<nat>, i: nat)
    requires Six(d) && Six(s) && i < REGISTERS && Readable(d, i) && Readable(s, i)
    requires i > 0 ==> Readable(d, i - 1) && Readable(s, i - 1)
    ensures Held(d, s, i) == d[i] && Put(d, s, i) == Max(d[i], s[i]) && ReadRight(d, s, i) && PutRight(d, s, i)
  {
    NoRunOver(d, s, i);
    OrNothing(d[i]);
    Dm64(0, Max(d[i], s[i]));
  }

  lemma ReadBack(d: seq<nat>, s: seq<nat>, i: nat)
    requires Six(d) && Six(s) && i < REGISTERS && ReadRight(d, s, i)
    ensures Readable(d, i) && Readable(s, i)
  {
    OrLowUp(d[i], RunOver(d, s, i));
    MisreadLarge(Held(d, s, i), At(d, i + 1), i % 4);
  }

  /** hll_merge reads every register right exactly when both strings are readable, and then its result is right. */
  lemma LiteralMergeReads(d: seq<nat>, s: seq<nat>)
    requires Six(d) && Six(s)
    ensures (forall i :: 0 <= i < REGISTERS ==> ReadRight(d, s, i)) <==> AllReadable(d) && AllReadable(s)
    ensures AllReadable(d) && AllReadable(s) ==> forall i :: 0 <= i < REGISTERS ==> PutRight(d, s, i)
  {
    if forall i :: 0 <= i < REGISTERS ==> ReadRight(d, s, i) {
      forall i | 0 <= i < REGISTERS
        ensures Readable(d, i) && Readable(s, i)
      {
        ReadBack(d, s, i);
      }
    }
    if AllReadable(d) && AllReadable(s) {
      forall i | 0 <= i < REGISTERS
        ensures ReadRight(d, s, i) && PutRight(d, s, i)
      {
        HeldRight(d, s, i);
      }
    }
  }

  /** A source that beats no register of a readable destination is readable itself and changes nothing. */
  lemma {:induction false} UnbeatenReadable(d: seq<nat>, s: seq<nat>, i: nat)
    requires Six(d) && Six(s) && AllReadable(d) && !Beaten(d, s, REGISTERS) && i < REGISTERS
    ensures Readable(s, i) && Put(d, s, i) == d[i]
  {
    if i > 0 {
      UnbeatenReadable(d, s, i - 1);
      assert Readable(d, i - 1);
    }
    assert Readable(d, i) && !Beats(d, s, i);
    NoRunOver(d, s, i);
    OrNothing(d[i]);
    MisreadLarge(s[i], At(s, i + 1), i % 4);
  }

  lemma Unbeaten(d: seq<nat>, s: seq<nat>, r: seq<nat>)
    requires Halfway(d, s, r, REGISTERS) && AllReadable(d) && !Beaten(d, s, REGISTERS)
    ensures r == d
  {
    forall i | 0 <= i < REGISTERS
      ensures r[i] == d[i]
    {
      UnbeatenReadable(d, s, i);
      Dm64(0, d[i]);
    }
  }

  /** Merging equal registers is never seen as a change, but a register with sign extension in the second slot is one. */
  lemma UnseenChange(d: seq<nat>, r: seq<nat>)
    requires Halfway(d, d, r, REGISTERS) && d[1] < 60 && d[1] % 4 >= 2
    ensures !Beaten(d, d, REGISTERS) && r[1] != d[1]
  {
    forall i | 0 <= i < REGISTERS
      ensures !Beats(d, d, i)
    {
      OrReads(d[i], RunOver(d, d, i), At(d, i + 1), i % 4);
    }
    var e := RunOver(d, d, 1);
    OrLowUp(d[1], e);
    LitValIs(OrLow(d[1], e), d[2], 1);
    LitValIs(d[1], d[2], 1);
  }

  /** Bits run over into a register do not make its read smaller. */
  lemma OrReads(x: nat, e: nat, next: nat, slot: nat)
    requires x < 64 && e < 4 && slot < 4
    ensures LitVal(OrLow(x, e), next, slot) >= LitVal(x, next, slot)
  {
    OrLowUp(x, e);
    TopOfOr(x, e, slot);
    Sixteenths(x);
    Sixteenths(OrLow(x, e));
  }

  /** Register 1 of the destination hides register 0 of the source. */
  lemma LiteralMergeFails(d: seq<nat>, s: seq<nat>)
    requires Six(d) && Six(s) && d[0] == 0 && d[1] == 1 && s[0] == 5 && s[1] == 0
    ensures Put(d, s, 0) % 64 == 0 && !PutRight(d, s, 0)
  {
  }

  // add_dense as written.

  /** The buffer after add_dense. */
  function AddLiteral(buf: seq<Byte>, reg: nat, val: nat): (out: seq<Byte>)
    requires DenseBuf(buf) && reg < REGISTERS && val < 64
    ensures DenseBuf(out)
  {
    if GetRegLiteral(buf, reg) < val then SetReg(buf, reg, val) else buf
  }

  /** add_dense as written raises the register exactly when it is large enough already or is read right. */
  lemma LiteralAddExact(buf: seq<Byte>, reg: nat, val: nat)
    requires DenseBuf(buf) && reg < REGISTERS && val < 64 && buf[HEADER + DENSE_BYTES] == 0
    ensures var r := Regs(buf); Regs(AddLiteral(buf, reg, val)) == r[reg := if r[reg] < val then val else r[reg]] <==>
      r[reg] >= val || (TopClear(reg % 4, r[reg]) && (reg + 1 < REGISTERS ==> r[reg + 1] % 4 == 0))
  {
    var r := Regs(buf);
    LiteralRead(buf, reg);
    ReadableIs(r, reg);
    SetRegUpdates(buf, reg, val);
    if r[reg] < val {
      assert r[reg := val][reg] != r[reg];
    } else {
      assert r[reg := r[reg]] == r;
    }
  }
}
