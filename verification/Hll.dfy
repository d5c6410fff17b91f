/** The HyperLogLog string of hyperloglog.cpp: 16384 registers, sparse or dense, with a cached count. */
module Hll {
  import opened Wrappers
  import opened Bytes
  import opened HllDense
  import opened HllSpill
  import opened HllFlags
  import opened HllSparse
  import opened HllConvert
  import opened HllCache
  import opened HllEstimate
  import HllHash

  const DENSE: Byte := 0
  const SPARSE: Byte := 1
  const SPARSE_MAX: nat := 3000

  /** The flag bytes of a sparse buffer: between the header and the terminator. */
  function Body(buf: seq<Byte>): seq<Byte>
    requires |buf| > HEADER
  {
    buf[HEADER..|buf| - 1]
  }

  ghost predicate SparseBuf(buf: seq<Byte>) {
    HEADER < |buf| <= SPARSE_MAX + 1 && AllFit(Parse(Body(buf))) &&
    Enc(Parse(Body(buf))) == Body(buf) && |Vec(Parse(Body(buf)))| == REGISTERS && Separated(Parse(Body(buf)))
  }

  /** A well-formed string of either encoding, with its terminator. */
  ghost predicate Good(buf: seq<Byte>) {
    |buf| > HEADER && buf[|buf| - 1] == 0 &&
    ((buf[4] == DENSE && DenseBuf(buf)) || (buf[4] == SPARSE && SparseBuf(buf)))
  }

  /** The registers of a well-formed string. */
  ghost function RegsOf(buf: seq<Byte>): (r: seq<nat>)
    requires Good(buf)
    ensures |r| == REGISTERS
  {
    if buf[4] == DENSE then Regs(buf) else Vec(Parse(Body(buf)))
  }

  /** A valid cache holds the estimate of the registers. */
  ghost predicate Coherent(buf: seq<Byte>, est: Estimator) {
    Good(buf) && (CacheValid(buf) ==> Cached(buf) == Estimate(RegsOf(buf), est))
  }

  ghost function Raised(r: seq<nat>, reg: nat, v: nat): seq<nat>
    requires reg < |r|
  {
    r[reg := Max(r[reg], v)]
  }

  // Buffers put together.

  lemma MakeSparse(head: seq<Byte>, fs: seq<Flag>)
    requires |head| == HEADER && head[4] == SPARSE && AllFit(fs) && |Vec(fs)| == REGISTERS && Separated(fs)
    requires HEADER + |Enc(fs)| <= SPARSE_MAX
    ensures var buf := head + Enc(fs) + [0]; Good(buf) && RegsOf(buf) == Vec(fs)
  {
    var buf := head + Enc(fs) + [0];
    assert Body(buf) == Enc(fs);
    ParseEnc(fs);
  }

  function Magic(enc: Byte): (b: seq<Byte>)
    ensures |b| == HEADER && b[4] == enc && b[15] == 128
  {
    [72, 89, 76, 76, enc, 0, 0, 0, 0, 0, 0, 0, 0, 0, 0, 128]
  }

  /** hll_init: one XZERO flag, which is the bytes 127 and 255, and a terminator. */
  method Init() returns (buf: seq<Byte>)
    ensures buf == Magic(SPARSE) + [127, 255] + [0]
    ensures Good(buf) && RegsOf(buf) == Rep(0, REGISTERS) && !CacheValid(buf)
  {
    var runlen := REGISTERS - 1;
    buf := Magic(SPARSE) + [64 + runlen / 256, runlen % 256] + [0];
    NewString(Magic(SPARSE));
  }

  lemma NewString(head: seq<Byte>)
    requires |head| == HEADER && head[4] == SPARSE
    ensures var buf := head + [127, 255] + [0]; Good(buf) && RegsOf(buf) == Rep(0, REGISTERS)
  {
    var f := XZero(REGISTERS);
    PieceEnc(f);
    VecOne(f);
    assert EncFlag(f) == [127, 255];
    MakeSparse(head, [f]);
  }

  /** dense_init: all registers zero. */
  method DenseInit() returns (buf: seq<Byte>)
    ensures DenseBuf(buf) && Regs(buf) == Rep(0, REGISTERS) && buf[..HEADER] == Magic(DENSE) && buf[|buf| - 1] == 0
  {
    buf := Magic(DENSE) + seq(DENSE_BYTES + 1, _ => 0);
    ghost var b := buf;
    forall i | 0 <= i < REGISTERS
      ensures Regs(b)[i] == 0
    {
      InBuffer(i);
      assert b[BytePos(i)] == 0 && b[BytePos(i) + 1] == 0;
      ZeroWindow(BitPos(i));
    }
  }

  lemma ZeroWindow(fb: nat)
    requires fb <= 8
    ensures Window(0, 0, fb) == 0
  {
  }

  // Adding.

  /** `out` has register `reg` raised to v, the result says whether that is a change, and only then is the cache lost. */
  ghost predicate AddedTo(buf: seq<Byte>, out: seq<Byte>, reg: nat, v: nat, ret: nat) {
    Good(buf) && Good(out) && reg < REGISTERS &&
    RegsOf(out) == Raised(RegsOf(buf), reg, v) &&
    ret == (if RegsOf(out) == RegsOf(buf) then 0 else 1) &&
    (CacheValid(out) ==> out == buf) && (out != buf ==> !CacheValid(out))
  }

  lemma DenseFrame(a: seq<Byte>, b: seq<Byte>)
    requires DenseBuf(a) && DenseBuf(b) && a[HEADER..] == b[HEADER..]
    ensures Regs(a) == Regs(b)
  {
    forall i | 0 <= i < REGISTERS
      ensures Regs(a)[i] == Regs(b)[i]
    {
      InBuffer(i);
      assert a[BytePos(i)] == a[HEADER..][BytePos(i) - HEADER];
      assert a[BytePos(i) + 1] == a[HEADER..][BytePos(i) + 1 - HEADER];
    }
  }

  /** The register is set, and the cache invalidated. */
  method Store(buf: seq<Byte>, reg: nat, val: nat) returns (out: seq<Byte>)
    requires Good(buf) && buf[4] == DENSE && reg < REGISTERS && val < 64
    ensures Good(out) && out[4] == DENSE && RegsOf(out) == RegsOf(buf)[reg := val] && !CacheValid(out)
  {
    SetRegUpdates(buf, reg, val);
    var raw := SetReg(buf, reg, val);
    out := Invalidate(raw);
    assert out[4] == raw[4] == raw[..HEADER][4] == buf[4];
    assert out[HEADER..] == raw[HEADER..];
    DenseFrame(raw, out);
  }

  /** add_dense with the register read as intended, masked and unsigned. */
  method AddDense(buf: seq<Byte>, reg: nat, val: nat) returns (out: seq<Byte>, ret: nat)
    requires Good(buf) && buf[4] == DENSE && reg < REGISTERS && val < 64
    ensures AddedTo(buf, out, reg, val, ret) && out[4] == DENSE && (ret == 0 ==> out == buf)
  {
    if GetReg(buf, reg) < val {
      out := Store(buf, reg, val);
      ret := 1;
      AddedChange(buf, out, reg, val);
    } else {
      out, ret := buf, 0;
      AddedNone(buf, reg, val);
    }
  }

  lemma AddedChange(buf: seq<Byte>, out: seq<Byte>, reg: nat, val: nat)
    requires Good(buf) && Good(out) && reg < REGISTERS && RegsOf(out) == RegsOf(buf)[reg := val] && RegsOf(buf)[reg] < val
    requires !CacheValid(out)
    ensures AddedTo(buf, out, reg, val, 1)
  {
    Changes(RegsOf(buf), reg, val);
  }

  lemma Changes(r: seq<nat>, reg: nat, val: nat)
    requires reg < |r| && r[reg] < val
    ensures r[reg := val] != r && Raised(r, reg, val) == r[reg := val]
  {
    assert r[reg := val][reg] != r[reg];
  }

  lemma AddedNone(buf: seq<Byte>, reg: nat, val: nat)
    requires Good(buf) && reg < REGISTERS && RegsOf(buf)[reg] >= val
    ensures AddedTo(buf, buf, reg, val, 0)
  {
    assert Raised(RegsOf(buf), reg, val) == RegsOf(buf);
  }

  /** add_dense as written: the register is raised exactly when it is large enough already or is read right. */
  method AddDenseAsWritten(buf: seq<Byte>, reg: nat, val: nat) returns (out: seq<Byte>, ret: nat)
    requires Good(buf) && buf[4] == DENSE && reg < REGISTERS && val < 64
    ensures Good(out) && out[4] == DENSE && ret == if GetRegLiteral(buf, reg) < val then 1 else 0
    ensures if ret == 0 then out == buf else RegsOf(out) == RegsOf(buf)[reg := val] && !CacheValid(out)
    ensures var r := RegsOf(buf); RegsOf(out) == Raised(r, reg, val) <==>
      r[reg] >= val || (TopClear(reg % 4, r[reg]) && (reg + 1 < REGISTERS ==> r[reg + 1] % 4 == 0))
  {
    LiteralAddExact(buf, reg, val);
    if GetRegLiteral(buf, reg) < val {
      SetRegUpdates(buf, reg, val);
      out := Store(buf, reg, val);
      ret := 1;
    } else {
      out, ret := buf, 0;
    }
  }

  /** densify, as intended. */
  method ToDense(buf: seq<Byte>) returns (out: seq<Byte>)
    requires Good(buf)
    ensures Good(out) && out[4] == DENSE && RegsOf(out) == RegsOf(buf)
    ensures out == buf || !CacheValid(out)
  {
    if buf[4] == DENSE {
      return buf;
    }
    ghost var fs := Parse(Body(buf));
    VecLenIs(fs);
    ScatterIsVec(fs, false);
    var zeros := DenseInit();
    out := Densify(Body(buf), zeros, false, fs);
    assert out[4] == out[..HEADER][4] && out[15] == out[..HEADER][15];
  }

  /** add_sparse, as intended. A value above 32 or a string of more than 2995 bytes makes it dense, whatever becomes of the register. */
  method AddSparse(buf: seq<Byte>, reg: nat, val: nat) returns (out: seq<Byte>, ret: nat)
    requires Good(buf) && buf[4] == SPARSE && reg < REGISTERS && 1 <= val < 64
    ensures AddedTo(buf, out, reg, val, ret)
    ensures out[4] == if val > 32 || |buf| - 1 > 2995 then DENSE else SPARSE
    ensures ret == 0 && out[4] == SPARSE ==> out == buf
  {
    var size := |buf| - 1;
    if val > MAX_VALUE || size + 5 > SPARSE_MAX {
      var dense := ToDense(buf);
      out, ret := AddDense(dense, reg, val);
      return;
    }
    ghost var fs := Parse(Body(buf));
    var body;
    ghost var gs;
    body, ret, gs := AddRun(Body(buf), reg, val, fs);
    if ret == 0 {
      out := buf;
    } else {
      var head := Invalidate(buf[..HEADER]);
      MakeSparse(head, gs);
      out := head + body + [0];
    }
  }

  // Counting.

  lemma CacheBelowLimit(buf: seq<Byte>)
    requires |buf| >= 16 && CacheValid(buf)
    ensures Cached(buf) < LIMIT
  {
    LimitIs();
    FromLeBelow(buf[8..15]);
    FromLeAppend(buf[8..15], buf[15]);
    assert buf[8..16] == buf[8..15] + [buf[15]];
  }

  lemma {:induction false} FromLeBelow(b: seq<Byte>)
    ensures FromLe(b) < Base(|b|)
  {
    if b != [] {
      FromLeBelow(b[1..]);
    }
  }

  /** A changed cache leaves the string well-formed and its registers as they were. */
  lemma OnlyCache(a: seq<Byte>, b: seq<Byte>)
    requires Good(a) && SameButCache(a, b)
    ensures Good(b) && RegsOf(b) == RegsOf(a)
  {
    assert a[..8][4] == b[..8][4];
    assert a[HEADER..][|a| - 1 - HEADER] == b[HEADER..][|a| - 1 - HEADER];
    assert Body(a) == a[HEADER..][..|a| - 1 - HEADER];
    assert Body(b) == b[HEADER..][..|a| - 1 - HEADER];
    if a[4] == DENSE {
      DenseFrame(a, b);
    }
  }

  /** estimate_cnt and cnt_zero_regs for either encoding, as intended. */
  method Sums(buf: seq<Byte>) returns (sum: real, zeros: nat)
    requires Good(buf)
    ensures sum == HSum(RegsOf(buf)) && zeros == ZeroRegs(RegsOf(buf))
  {
    if buf[4] == DENSE {
      sum := DenseSum(buf);
      zeros := DenseZeros(buf);
    } else {
      ghost var fs := Parse(Body(buf));
      sum := SparseSum(Body(buf), fs);
      zeros := SparseZeros(Body(buf), fs);
    }
  }

  /** What hll_count has to return: nothing if the value fails the assertion that it fits into 63 bits. */
  ghost function Answer(r: seq<nat>, est: Estimator): Option<nat> {
    var e := Estimate(r, est);
    if 0 <= e < LIMIT then Some(e) else None
  }

  // Merging.

  ghost function MaxAll(a: seq<nat>, b: seq<nat>): (r: seq<nat>)
    requires |a| == |b|
    ensures |r| == |a|
  {
    seq(|a|, i requires 0 <= i < |a| => Max(a[i], b[i]))
  }

  /** hll_merge of two dense strings, with the registers read as intended. */
  method MergeDense(dest: seq<Byte>, src: seq<Byte>) returns (out: seq<Byte>, changed: bool)
    requires Good(dest) && dest[4] == DENSE && Good(src) && src[4] == DENSE
    ensures Good(out) && out[4] == DENSE && RegsOf(out) == MaxAll(RegsOf(dest), RegsOf(src))
    ensures (changed <==> RegsOf(out) != RegsOf(dest)) && if changed then !CacheValid(out) else SameFrame(out, dest)
  {
    out, changed := dest, false;
    var reg := 0;
    ghost var a, b := Regs(dest), Regs(src);
    while reg < REGISTERS
      invariant reg <= REGISTERS && SameFrame(out, dest) && MergedTo(a, b, Regs(out), reg, changed)
    {
      var r1, r2 := GetReg(out, reg), GetReg(src, reg);
      MergeStep(Regs(out), a, b, reg, changed);
      SetRegUpdates(out, reg, Max(r1, r2));
      if r1 < r2 {
        changed := true;
      }
      out := SetReg(out, reg, Max(r1, r2));
      reg := reg + 1;
    }
    MergedAll(a, b, Regs(out), changed);
    assert out[4] == out[..HEADER][4] == dest[..HEADER][4];
    if changed {
      ghost var o := out;
      out := Invalidate(out);
      OnlyCache(o, out);
    }
  }

  /** The first n registers are merged, and `changed` says whether that made a difference. */
  ghost predicate MergedTo(a: seq<nat>, b: seq<nat>, r: seq<nat>, n: nat, changed: bool) {
    |a| == |b| == |r| && n <= |a| && (forall i :: 0 <= i < |a| ==> r[i] == if i < n then Max(a[i], b[i]) else a[i]) &&
    (changed <==> r != a)
  }

  lemma MergeStep(r: seq<nat>, a: seq<nat>, b: seq<nat>, n: nat, changed: bool)
    requires MergedTo(a, b, r, n, changed) && n < |a|
    ensures r[n] == a[n] && MergedTo(a, b, r[n := Max(r[n], b[n])], n + 1, changed || r[n] < b[n])
  {
    var r' := r[n := Max(r[n], b[n])];
    if r[n] < b[n] {
      assert r'[n] != a[n];
    } else {
      assert r' == r;
    }
  }

  lemma MergedAll(a: seq<nat>, b: seq<nat>, r: seq<nat>, changed: bool)
    requires MergedTo(a, b, r, |a|, changed)
    ensures r == MaxAll(a, b) && (changed <==> MaxAll(a, b) != a)
  {
  }

  /** A valid cache holds the estimate of the registers, whatever the terminator is. */
  ghost predicate CacheRight(buf: seq<Byte>, est: Estimator) {
    DenseBuf(buf) && (CacheValid(buf) ==> Cached(buf) == Estimate(Regs(buf), est))
  }

  /**
   hll_merge as written: the registers, the cache and the terminator. The cache stays right where every register of the
   destination can be read, since a misread of the source then counts as a change.
   */
  method MergeDenseAsWritten(dest: seq<Byte>, src: seq<Byte>) returns (out: seq<Byte>)
    requires Good(dest) && dest[4] == DENSE && Good(src) && src[4] == DENSE
    ensures DenseBuf(out) && Halfway(RegsOf(dest), RegsOf(src), Regs(out), REGISTERS)
    ensures Good(out) <==> LastClear(RegsOf(dest)) && LastClear(RegsOf(src))
    ensures if Beaten(RegsOf(dest), RegsOf(src), REGISTERS) then !CacheValid(out) else out[..HEADER] == dest[..HEADER]
    ensures AllReadable(RegsOf(dest)) ==> forall est :: Coherent(dest, est) ==> CacheRight(out, est)
  {
    out := MergeRaw(dest, src);
    ghost var d, s := Regs(dest), Regs(src);
    MergedGood(dest, out);
    if AllReadable(d) {
      MergedCache(dest, out, d, s);
    }
  }

  /** The loop, and the invalidation. */
  method MergeRaw(dest: seq<Byte>, src: seq<Byte>) returns (out: seq<Byte>)
    requires DenseBuf(dest) && DenseBuf(src) && dest[HEADER + DENSE_BYTES] == 0 && src[HEADER + DENSE_BYTES] == 0
    ensures DenseBuf(out) && out[..8] == dest[..8] && Halfway(Regs(dest), Regs(src), Regs(out), REGISTERS)
    ensures out[HEADER + DENSE_BYTES] == 0 <==> LastClear(Regs(dest)) && LastClear(Regs(src))
    ensures if Beaten(Regs(dest), Regs(src), REGISTERS) then !CacheValid(out) else out[..HEADER] == dest[..HEADER]
  {
    var changed;
    out, changed := MergeAsWritten(dest, src);
    assert out[..8] == out[..HEADER][..8] == dest[..8];
    if changed {
      ghost var raw := out;
      out := Invalidate(out);
      assert out[HEADER..] == raw[HEADER..];
      assert out[HEADER + DENSE_BYTES] == out[HEADER..][DENSE_BYTES] == raw[HEADER + DENSE_BYTES];
      DenseFrame(raw, out);
    }
  }

  lemma MergedGood(dest: seq<Byte>, out: seq<Byte>)
    requires Good(dest) && dest[4] == DENSE && DenseBuf(out) && out[..8] == dest[..8]
    ensures Good(out) <==> out[HEADER + DENSE_BYTES] == 0
  {
    assert out[4] == out[..8][4] == dest[..8][4];
  }

  lemma MergedCache(dest: seq<Byte>, out: seq<Byte>, d: seq<nat>, s: seq<nat>)
    requires Good(dest) && dest[4] == DENSE && DenseBuf(out) && d == Regs(dest) && AllReadable(d)
    requires Halfway(d, s, Regs(out), REGISTERS)
    requires if Beaten(d, s, REGISTERS) then !CacheValid(out) else out[..HEADER] == dest[..HEADER]
    ensures forall est :: Coherent(dest, est) ==> CacheRight(out, est)
  {
    if !Beaten(d, s, REGISTERS) {
      Unbeaten(d, s, Regs(out));
      SameCache(dest, out);
    }
  }

  lemma SameCache(a: seq<Byte>, b: seq<Byte>)
    requires DenseBuf(a) && DenseBuf(b) && a[..HEADER] == b[..HEADER]
    ensures (CacheValid(a) <==> CacheValid(b)) && Cached(a) == Cached(b)
  {
    assert a[15] == a[..HEADER][15] && b[15] == b[..HEADER][15];
    assert a[8..16] == a[..HEADER][8..16] && b[8..16] == b[..HEADER][8..16];
  }


  /** The string behind a pointer that the operations may redirect. */
  class HyperLogLog {
    var buf: seq<Byte>

    /** hll_init */
    constructor ()
      ensures Good(buf) && RegsOf(buf) == Rep(0, REGISTERS) && forall est :: Coherent(buf, est)
    {
      var b := Init();
      buf := b;
    }

    /** hll_add as intended, given the hash of the value. */
    method Add(hash: nat) returns (ret: nat)
      requires Good(buf) && hash < HllHash.TWO64
      modifies this
      ensures Good(buf) && HllHash.RegNo(hash) < REGISTERS
      ensures RegsOf(buf) == Raised(old(RegsOf(buf)), HllHash.RegNo(hash), HllHash.Rank(hash))
      ensures ret == if RegsOf(buf) == old(RegsOf(buf)) then 0 else 1
      ensures buf[4] == if old(buf[4]) == DENSE || HllHash.Rank(hash) > 32 || old(|buf|) - 1 > 2995 then DENSE else SPARSE
      ensures ret == 0 && buf[4] == old(buf[4]) ==> buf == old(buf)
      ensures forall est :: old(Coherent(buf, est)) ==> Coherent(buf, est)
    {
      var reg, zeroes := HllHash.Split(hash);
      ghost var was := buf;
      if buf[4] == DENSE {
        buf, ret := AddDense(buf, reg, zeroes);
      } else {
        buf, ret := AddSparse(buf, reg, zeroes);
      }
      assert AddedTo(was, buf, reg, zeroes, ret);
    }

    /** hll_count, with registers and zeros counted as intended. */
    method Count(est: Estimator) returns (res: Option<nat>)
      requires Coherent(buf, est)
      modifies this
      ensures Coherent(buf, est) && RegsOf(buf) == old(RegsOf(buf))
      ensures res == Answer(RegsOf(buf), est)
      ensures match res case Some(n) => CacheValid(buf) && Cached(buf) == n case None => buf == old(buf)
    {
      if CacheValid(buf) {
        CacheBelowLimit(buf);
        var c := GetCache(buf);
        return Some(c);
      }
      var sum, zeros := Sums(buf);
      var estimate := est(sum, zeros);
      if !(0 <= estimate < LIMIT) {
        return None;
      }
      var b := SetCache(buf, estimate);
      OnlyCache(buf, b);
      buf := b;
      return Some(estimate);
    }

    /** hll_count with its own formula, whose division is always defined. */
    method CountByFormula(log: real -> real) returns (res: Option<nat>)
      requires Coherent(buf, Formula(log))
      modifies this
      ensures Coherent(buf, Formula(log)) && RegsOf(buf) == old(RegsOf(buf)) && HSum(RegsOf(buf)) > 0.0
      ensures var e := (Corrected(HSum(RegsOf(buf)), ZeroRegs(RegsOf(buf)), log) + 0.5).Floor;
        res == if 0 <= e < LIMIT then Some(e) else None
      ensures match res case Some(n) => CacheValid(buf) && Cached(buf) == n case None => buf == old(buf)
    {
      FormulaApplies(RegsOf(buf), log);
      res := Count(Formula(log));
    }

    /** hll_merge, as intended. */
    method Merge(src: HyperLogLog)
      requires Good(buf) && buf[4] == DENSE && Good(src.buf) && src.buf[4] == DENSE
      modifies this
      ensures Merged(old(buf), old(src.buf), buf)
      ensures forall est :: old(Coherent(buf, est)) ==> Coherent(buf, est)
    {
      buf := MergeCoherent(buf, src.buf);
    }
  }

  /** The registers are the maxima of both strings, and the cache is lost exactly if that is a change. */
  ghost predicate Merged(dest: seq<Byte>, src: seq<Byte>, out: seq<Byte>) {
    Good(dest) && Good(src) && Good(out) && out[4] == DENSE && RegsOf(out) == MaxAll(RegsOf(dest), RegsOf(src)) &&
    if RegsOf(out) == RegsOf(dest) then SameFrame(out, dest) else !CacheValid(out)
  }

  method MergeCoherent(dest: seq<Byte>, src: seq<Byte>) returns (out: seq<Byte>)
    requires Good(dest) && dest[4] == DENSE && Good(src) && src[4] == DENSE
    ensures Merged(dest, src, out)
    ensures forall est :: Coherent(dest, est) ==> Coherent(out, est)
  {
    var changed;
    out, changed := MergeDense(dest, src);
    if changed {
      Invalidated(dest, out);
    } else {
      KeptCoherent(dest, out);
    }
  }

  lemma Invalidated(was: seq<Byte>, now: seq<Byte>)
    requires Good(was) && Good(now) && !CacheValid(now)
    ensures forall est :: Coherent(was, est) ==> Coherent(now, est)
  {
  }

  lemma KeptCoherent(was: seq<Byte>, now: seq<Byte>)
    requires Good(was) && Good(now) && RegsOf(was) == RegsOf(now) && was[..HEADER] == now[..HEADER]
    ensures forall est :: Coherent(was, est) ==> Coherent(now, est)
  {
    assert was[15] == was[..HEADER][15] && now[15] == now[..HEADER][15];
    assert was[8..16] == was[..HEADER][8..16] && now[8..16] == now[..HEADER][8..16];
  }

  /** The count of a new string is zero. */
  method CountOfNew(log: real -> real) returns (res: Option<nat>)
    requires log(1.0) == 0.0
    ensures res == Some(0)
  {
    var h := new HyperLogLog();
    NewAnswer(RegsOf(h.buf), log, REGISTERS);
    res := h.Count(Formula(log));
  }

  lemma NewAnswer(r: seq<nat>, log: real -> real, n: nat)
    requires n == REGISTERS && r == Rep(0, n) && log(1.0) == 0.0
    ensures Answer(r, Formula(log)) == Some(0)
  {
    EmptyEstimate(log, n);
  }
}
