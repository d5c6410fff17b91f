/** densify: the sparse encoding unpacked into the dense one. */
module HllConvert {
  import opened Bytes
  import opened HllDense
  import opened HllFlags
  import opened HllSparse

  /** Registers n up to n + c set to v. */
  ghost function Overlay(r: seq<nat>, n: nat, v: nat, c: nat): (out: seq<nat>)
    requires n + c <= |r|
    ensures |out| == |r|
    ensures forall i :: 0 <= i < |r| ==> out[i] == if n <= i < n + c then v else r[i]
  {
    r[..n] + Rep(v, c) + r[n + c..]
  }

  function VecLen(fs: seq<Flag>): nat {
    if fs == [] then 0 else VecLen(fs[..|fs| - 1]) + fs[|fs| - 1].count
  }

  /** How many VAL flags there are. */
  ghost function Vals(fs: seq<Flag>): nat {
    if fs == [] then 0 else Vals(fs[..|fs| - 1]) + (if fs[|fs| - 1].Val? then 1 else 0)
  }

  /** Where the registers of the next flag go when, with `wrap`, every VAL flag sets the position back by one. */
  ghost function Cursor(fs: seq<Flag>, wrap: bool): int {
    VecLen(fs) - if wrap then Vals(fs) else 0
  }

  lemma {:induction false} CursorInRange(fs: seq<Flag>, wrap: bool)
    requires AllFit(fs)
    ensures 0 <= Cursor(fs, wrap) <= VecLen(fs)
  {
    if fs != [] {
      CursorInRange(fs[..|fs| - 1], wrap);
    }
  }

  lemma {:induction false} VecLenIs(fs: seq<Flag>)
    ensures VecLen(fs) == |Vec(fs)|
  {
    if fs != [] {
      var a, f := fs[..|fs| - 1], fs[|fs| - 1];
      VecLenIs(a);
      assert fs == a + [f];
      VecConcat(a, [f]);
      VecOne(f);
    }
  }

  /** The registers after all flags have been written at their cursors over a vector of zeros. */
  ghost function Scatter(fs: seq<Flag>, wrap: bool): (r: seq<nat>)
    requires AllFit(fs) && VecLen(fs) <= REGISTERS
    ensures |r| == REGISTERS
  {
    if fs == [] then Rep(0, REGISTERS)
    else
      var a, f := fs[..|fs| - 1], fs[|fs| - 1];
      CursorInRange(a, wrap);
      if f.Val? then Overlay(Scatter(a, wrap), Cursor(a, wrap), f.value, f.count) else Scatter(a, wrap)
  }

  /** Registers completed with zeros. */
  ghost function Padded(a: seq<nat>): (r: seq<nat>)
    requires |a| <= REGISTERS
    ensures |r| == REGISTERS
    ensures forall i :: 0 <= i < REGISTERS ==> r[i] == if i < |a| then a[i] else 0
  {
    a + Rep(0, REGISTERS - |a|)
  }

  /** With no VAL flag set back, or one at most, the scattered registers are the ones the flags stand for. */
  lemma {:induction false} ScatterIsVec(fs: seq<Flag>, wrap: bool)
    requires AllFit(fs) && VecLen(fs) <= REGISTERS && (wrap ==> Vals(fs) <= 1)
    ensures VecLen(fs) == |Vec(fs)| && Scatter(fs, wrap) == Padded(Vec(fs))
  {
    VecLenIs(fs);
    if fs != [] {
      var a, f := fs[..|fs| - 1], fs[|fs| - 1];
      ScatterIsVec(a, wrap);
      LastRun(fs);
      PadMore(Vec(a), ValueOf(f), f.count);
    }
  }

  lemma LastRun(fs: seq<Flag>)
    requires fs != []
    ensures var a, f := fs[..|fs| - 1], fs[|fs| - 1]; Vec(fs) == Vec(a) + Rep(ValueOf(f), f.count)
  {
    var a, f := fs[..|fs| - 1], fs[|fs| - 1];
    assert fs == a + [f];
    VecConcat(a, [f]);
    VecOne(f);
  }

  lemma PadMore(a: seq<nat>, v: nat, c: nat)
    requires |a| + c <= REGISTERS
    ensures Overlay(Padded(a), |a|, v, c) == Padded(a + Rep(v, c))
    ensures v == 0 ==> Padded(a) == Padded(a + Rep(v, c))
  {
  }

  /** One past the last register of the last VAL flag. */
  ghost function LastEnd(fs: seq<Flag>): nat {
    if fs == [] then 0 else if fs[|fs| - 1].Val? then VecLen(fs) else LastEnd(fs[..|fs| - 1])
  }

  /** Set back by each VAL flag, nothing is written close to the end of the last one. */
  lemma {:induction false} ScatterShort(fs: seq<Flag>, i: nat)
    requires AllFit(fs) && VecLen(fs) <= REGISTERS && Vals(fs) > 0
    requires LastEnd(fs) - (Vals(fs) - 1) <= i < REGISTERS
    ensures LastEnd(fs) <= VecLen(fs) && Scatter(fs, true)[i] == 0
  {
    var a, f := fs[..|fs| - 1], fs[|fs| - 1];
    CursorInRange(a, true);
    if !f.Val? {
      ScatterShort(a, i);
    } else if Vals(a) > 0 {
      LastEndBound(a);
      ScatterShort(a, i);
    } else {
      NoVals(a);
    }
  }

  lemma {:induction false} LastEndBound(fs: seq<Flag>)
    ensures LastEnd(fs) <= VecLen(fs)
  {
    if fs != [] {
      LastEndBound(fs[..|fs| - 1]);
    }
  }

  lemma {:induction false} NoVals(fs: seq<Flag>)
    requires AllFit(fs) && VecLen(fs) <= REGISTERS && Vals(fs) == 0
    ensures Scatter(fs, true) == Rep(0, REGISTERS)
  {
    if fs != [] {
      NoVals(fs[..|fs| - 1]);
    }
  }

  lemma {:induction false} LastEndHasValue(fs: seq<Flag>)
    requires AllFit(fs) && Vals(fs) > 0
    ensures 0 < LastEnd(fs) <= |Vec(fs)| && Vec(fs)[LastEnd(fs) - 1] > 0
  {
    var a, f := fs[..|fs| - 1], fs[|fs| - 1];
    assert fs == a + [f];
    VecConcat(a, [f]);
    VecOne(f);
    VecLenIs(a);
    VecLenIs(fs);
    if !f.Val? {
      LastEndHasValue(a);
    }
  }

  /** `cnt` wraps around after a VAL run, so the literal conversion is right exactly for at most one VAL flag. */
  lemma LiteralDensifyExact(fs: seq<Flag>)
    requires AllFit(fs) && |Vec(fs)| == REGISTERS
    ensures VecLen(fs) == REGISTERS
    ensures Scatter(fs, true) == Vec(fs) <==> Vals(fs) <= 1
  {
    VecLenIs(fs);
    if Vals(fs) <= 1 {
      ScatterIsVec(fs, true);
    } else {
      LastEndHasValue(fs);
      ScatterShort(fs, LastEnd(fs) - 1);
    }
  }

  // The conversion.

  /** Equal but for the packed registers. */
  ghost predicate SameFrame(a: seq<Byte>, b: seq<Byte>) {
    DenseBuf(a) && DenseBuf(b) && a[..HEADER] == b[..HEADER] && a[HEADER + DENSE_BYTES] == b[HEADER + DENSE_BYTES]
  }

  /** while (cnt--) set_reg(dhll, reg_no++, val) */
  method WriteRun(buf0: seq<Byte>, reg: nat, val: nat, cnt: nat) returns (buf: seq<Byte>)
    requires DenseBuf(buf0) && reg + cnt <= REGISTERS && val < 64
    ensures SameFrame(buf0, buf) && Regs(buf) == Overlay(Regs(buf0), reg, val, cnt)
  {
    buf := buf0;
    var i := 0;
    while i < cnt
      invariant i <= cnt && SameFrame(buf0, buf) && Regs(buf) == Overlay(Regs(buf0), reg, val, i)
    {
      SetRegUpdates(buf, reg + i, val);
      buf := SetReg(buf, reg + i, val);
      i := i + 1;
    }
  }

  /** One more flag written. */
  lemma ScatterStep(fs: seq<Flag>, k: nat, wrap: bool)
    requires AllFit(fs) && k < |fs| && VecLen(fs) <= REGISTERS
    ensures VecLen(fs[..k + 1]) == VecLen(fs[..k]) + fs[k].count <= REGISTERS
    ensures 0 <= Cursor(fs[..k], wrap) <= VecLen(fs[..k])
    ensures Scatter(fs[..k + 1], wrap) ==
      if fs[k].Val? then Overlay(Scatter(fs[..k], wrap), Cursor(fs[..k], wrap), fs[k].value, fs[k].count) else Scatter(fs[..k], wrap)
    ensures Cursor(fs[..k + 1], wrap) == Cursor(fs[..k], wrap) + fs[k].count - (if fs[k].Val? && wrap then 1 else 0)
  {
    assert fs[..k + 1][..k] == fs[..k];
    CursorInRange(fs[..k], wrap);
    VecLenMonotone(fs, k + 1);
  }

  lemma {:induction false} VecLenMonotone(fs: seq<Flag>, k: nat)
    requires k <= |fs|
    ensures VecLen(fs[..k]) <= VecLen(fs)
    decreases |fs|
  {
    if k == |fs| {
      assert fs[..k] == fs;
    } else {
      assert fs[..|fs| - 1][..k] == fs[..k];
      VecLenMonotone(fs[..|fs| - 1], k);
    }
  }

  /** The flags before flag k have been written. */
  ghost predicate Written(fs: seq<Flag>, k: nat, wrap: bool, zeros: seq<Byte>, buf: seq<Byte>, reg: int) {
    var written :=
      AllFit(fs) && k <= |fs| && VecLen(fs) == REGISTERS && VecLen(fs[..k]) <= REGISTERS &&
      reg == Cursor(fs[..k], wrap) && SameFrame(zeros, buf) && Regs(buf) == Scatter(fs[..k], wrap);
    written
  }

  lemma WrittenNext(fs: seq<Flag>, k: nat, wrap: bool, zeros: seq<Byte>, buf: seq<Byte>, reg: int, buf': seq<Byte>, reg': int)
    requires k < |fs| && Written(fs, k, wrap, zeros, buf, reg) && 0 <= reg && reg + fs[k].count <= REGISTERS
    requires SameFrame(buf, buf')
    requires Regs(buf') == if fs[k].Val? then Overlay(Regs(buf), reg, fs[k].value, fs[k].count) else Regs(buf)
    requires reg' == reg + fs[k].count - if fs[k].Val? && wrap then 1 else 0
    ensures Written(fs, k + 1, wrap, zeros, buf', reg')
  {
    ScatterStep(fs, k, wrap);
  }

  lemma WrittenBounds(fs: seq<Flag>, k: nat, wrap: bool, zeros: seq<Byte>, buf: seq<Byte>, reg: int)
    requires k < |fs| && Written(fs, k, wrap, zeros, buf, reg)
    ensures DenseBuf(buf) && 0 <= reg && reg + fs[k].count <= REGISTERS && ValueOf(fs[k]) < 64 && fs[k].count >= 1
  {
    ScatterStep(fs, k, wrap);
    assert Fits(fs[k]);
  }

  /** The branches on a flag: whether it is a VAL, its value and count, and its last byte. */
  method ReadFlag(bs: seq<Byte>, fn: nat, ghost fs: seq<Flag>, ghost k: nat) returns (val: bool, v: nat, cnt: nat, last: nat)
    requires AtFlag(bs, fn, fs, k) && k < |fs|
    ensures val == fs[k].Val? && v == ValueOf(fs[k]) && cnt == fs[k].count && AtFlag(bs, last + 1, fs, k + 1)
  {
    ReadAt(bs, fs, k);
    PosStep(fs, k);
    var flag := bs[fn];
    val, v, last := IsVal(flag), 0, fn;
    if IsVal(flag) {
      v, cnt := ValValue(flag), ValCnt(flag);
    } else if IsZero(flag) {
      cnt := ZeroCnt(flag);
    } else {
      last := fn + 1;
      cnt := XZeroCnt(flag, bs[last]);
    }
  }

  /** The loop body of densify. */
  method DensifyStep(bs: seq<Byte>, fn0: nat, reg0: int, buf0: seq<Byte>, wrap: bool,
                     ghost fs: seq<Flag>, ghost k: nat, ghost zeros: seq<Byte>)
    returns (fn: nat, reg: int, buf: seq<Byte>)
    requires AtFlag(bs, fn0, fs, k) && k < |fs| && Written(fs, k, wrap, zeros, buf0, reg0)
    ensures AtFlag(bs, fn, fs, k + 1) && Written(fs, k + 1, wrap, zeros, buf, reg)
  {
    var val, v, cnt, last := ReadFlag(bs, fn0, fs, k);
    WrittenBounds(fs, k, wrap, zeros, buf0, reg0);
    buf := buf0;
    if val {
      buf := WriteRun(buf0, reg0, v, cnt);
    }
    reg := reg0 + cnt - if val && wrap then 1 else 0;
    WrittenNext(fs, k, wrap, zeros, buf0, reg0, buf, reg);
    fn := last + 1;
  }

  /**
   densify on the flag bytes, into a buffer whose registers are zero. As written, `wrap`, a VAL run leaves `cnt` at
   the largest 32-bit number, so that `reg_no` ends one too low; as intended it does not.
   */
  method Densify(bs: seq<Byte>, zeros: seq<Byte>, wrap: bool, ghost fs: seq<Flag>) returns (buf: seq<Byte>)
    requires AllFit(fs) && bs == Enc(fs) && VecLen(fs) == REGISTERS
    requires DenseBuf(zeros) && Regs(zeros) == Rep(0, REGISTERS)
    ensures SameFrame(zeros, buf) && Regs(buf) == Scatter(fs, wrap)
  {
    buf := zeros;
    var reg: int, fn: nat := 0, 0;
    ghost var k: nat := 0;
    assert fs[..0] == [];
    while fn < |bs|
      invariant AtFlag(bs, fn, fs, k) && Written(fs, k, wrap, zeros, buf, reg)
      decreases |fs| - k
    {
      NotAtEnd(fs, k);
      fn, reg, buf := DensifyStep(bs, fn, reg, buf, wrap, fs, k, zeros);
      k := k + 1;
    }
    NotAtEnd(fs, k);
    assert fs[..k] == fs;
  }
}
