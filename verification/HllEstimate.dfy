/** The two estimators of hyperloglog.cpp: harmonic sums and zero counts over runs and over packed registers. */
module HllEstimate {
  import opened Wrappers
  import opened Bytes
  import opened Seqs
  import opened HllDense
  import opened HllSpill
  import opened HllFlags
  import opened HllSparse

  /** One half to the power v. */
  ghost function Inv(v: nat): real { if v == 0 then 1.0 else Inv(v - 1) / 2.0 }

  lemma {:induction false} InvPositive(v: nat)
    ensures Inv(v) > 0.0
  {
    if v > 0 {
      InvPositive(v - 1);
    }
  }

  lemma {:induction false} InvIs(v: nat)
    ensures 1.0 / Pow2(v) as real == Inv(v)
  {
    if v > 0 {
      InvIs(v - 1);
      Halve(Pow2(v - 1) as real);
      assert Pow2(v) as real == 2.0 * Pow2(v - 1) as real;
    }
  }

  lemma Halve(x: real)
    requires x > 0.0
    ensures 1.0 / (2.0 * x) == 1.0 / x / 2.0
  {
    assert 1.0 / x * x == 1.0;
  }

  /** 1.0l / (1ull << reg) */
  method Reciprocal(reg: nat) returns (x: real)
    ensures x == Inv(reg)
  {
    InvIs(reg);
    x := 1.0 / Pow2(reg) as real;
  }

  /** The sum over all registers, one by one. */
  ghost function HSum(r: seq<nat>): real {
    if r == [] then 0.0 else HSum(r[..|r| - 1]) + Inv(r[|r| - 1])
  }

  lemma {:induction false} HSumPositive(r: seq<nat>)
    ensures HSum(r) >= 0.0 && (r != [] ==> HSum(r) > 0.0)
  {
    if r != [] {
      HSumPositive(r[..|r| - 1]);
      InvPositive(r[|r| - 1]);
    }
  }

  lemma {:induction false} HSumConcat(a: seq<nat>, b: seq<nat>)
    ensures HSum(a + b) == HSum(a) + HSum(b)
  {
    if b == [] {
      assert a + b == a;
    } else {
      HSumConcat(a, b[..|b| - 1]);
      assert (a + b)[..|a + b| - 1] == a + b[..|b| - 1];
    }
  }

  lemma {:induction false} HSumRep(v: nat, n: nat)
    ensures HSum(Rep(v, n)) == Inv(v) * n as real
  {
    if n > 0 {
      HSumRep(v, n - 1);
      assert Rep(v, n)[..n - 1] == Rep(v, n - 1);
      Distribute(Inv(v), n - 1);
    }
  }

  lemma Distribute(x: real, n: nat)
    ensures x * (n + 1) as real == x * n as real + x
  {
  }

  ghost function ZeroRegs(r: seq<nat>): (n: nat)
    ensures n <= |r|
  {
    if r == [] then 0 else ZeroRegs(r[..|r| - 1]) + if r[|r| - 1] == 0 then 1 else 0
  }

  lemma {:induction false} ZeroRegsIs(r: seq<nat>)
    ensures ZeroRegs(r) == multiset(r)[0]
  {
    if r != [] {
      ZeroRegsIs(r[..|r| - 1]);
      assert r == r[..|r| - 1] + [r[|r| - 1]];
    }
  }

  lemma {:induction false} ZeroRegsConcat(a: seq<nat>, b: seq<nat>)
    ensures ZeroRegs(a + b) == ZeroRegs(a) + ZeroRegs(b)
  {
    if b == [] {
      assert a + b == a;
    } else {
      ZeroRegsConcat(a, b[..|b| - 1]);
      assert (a + b)[..|a + b| - 1] == a + b[..|b| - 1];
    }
  }

  lemma {:induction false} ZeroRegsRep(v: nat, n: nat)
    ensures ZeroRegs(Rep(v, n)) == if v == 0 then n else 0
  {
    if n > 0 {
      ZeroRegsRep(v, n - 1);
      assert Rep(v, n)[..n - 1] == Rep(v, n - 1);
    }
  }

  // Over packed registers.

  lemma TakeOne(r: seq<nat>, i: nat)
    requires i < |r|
    ensures HSum(r[..i + 1]) == HSum(r[..i]) + Inv(r[i])
    ensures ZeroRegs(r[..i + 1]) == ZeroRegs(r[..i]) + if r[i] == 0 then 1 else 0
  {
    assert r[..i + 1][..i] == r[..i];
  }

  /** The sum of estimate_cnt_d as intended, over registers read masked and unsigned. */
  method DenseSum(buf: seq<Byte>) returns (sum: real)
    requires DenseBuf(buf)
    ensures sum == HSum(Regs(buf))
  {
    sum := 0.0;
    ghost var r := Regs(buf);
    var reg := 0;
    while reg < REGISTERS
      invariant reg <= REGISTERS && sum == HSum(r[..reg])
    {
      TakeOne(r, reg);
      var x := Reciprocal(GetReg(buf, reg));
      sum := sum + x;
      reg := reg + 1;
    }
    assert r[..REGISTERS] == r;
  }

  /** The count of zero registers of a dense string as intended, over the same reads. */
  method DenseZeros(buf: seq<Byte>) returns (n: nat)
    requires DenseBuf(buf)
    ensures n == ZeroRegs(Regs(buf))
  {
    n := 0;
    ghost var r := Regs(buf);
    var reg := 0;
    while reg < REGISTERS
      invariant reg <= REGISTERS && n == ZeroRegs(r[..reg])
    {
      TakeOne(r, reg);
      if GetReg(buf, reg) == 0 {
        n := n + 1;
      }
      reg := reg + 1;
    }
    assert r[..REGISTERS] == r;
  }

  // Over packed registers as they are read.

  /** 1ull << reg has no meaning from 64 on. */
  method ReciprocalAsWritten(reg: nat) returns (x: Option<real>)
    ensures x == if reg < 64 then Some(Inv(reg)) else None
  {
    if reg < 64 {
      var y := Reciprocal(reg);
      return Some(y);
    }
    return None;
  }

  /** The sum as written has a meaning exactly when every register is read right, and then it is the harmonic sum. */
  method DenseSumAsWritten(buf: seq<Byte>) returns (sum: Option<real>)
    requires DenseBuf(buf) && buf[HEADER + DENSE_BYTES] == 0
    ensures sum == if AllReadable(Regs(buf)) then Some(HSum(Regs(buf))) else None
  {
    var total := 0.0;
    ghost var r := Regs(buf);
    var reg: nat := 0;
    while reg < REGISTERS
      invariant reg <= REGISTERS && total == HSum(r[..reg])
      invariant forall i :: 0 <= i < reg ==> Readable(r, i)
    {
      LiteralRead(buf, reg);
      TakeOne(r, reg);
      var x := ReciprocalAsWritten(GetRegLiteral(buf, reg));
      if x == None {
        return None;
      }
      total, reg := total + x.value, reg + 1;
    }
    assert r[..REGISTERS] == r;
    return Some(total);
  }

  /** A zero register is taken for one exactly when the register after it is divisible by 4. */
  lemma ReadsZero(r: seq<nat>, i: nat)
    requires i < |r|
    ensures LitVal(r[i], At(r, i + 1), i % 4) == 0 <==> r[i] == 0 && At(r, i + 1) % 4 == 0
  {
  }

  /** No zero among the first n registers is hidden by the register after it. */
  ghost predicate ZerosSeen(r: seq<nat>, n: nat) {
    n <= |r| && forall i {:trigger r[i]} :: 0 <= i < n && r[i] == 0 ==> At(r, i + 1) % 4 == 0
  }

  lemma ZerosSeenStep(r: seq<nat>, n: nat)
    requires n < |r|
    ensures ZerosSeen(r, n + 1) <==> ZerosSeen(r, n) && (r[n] == 0 ==> At(r, n + 1) % 4 == 0)
  {
  }

  /** The count of zero registers as written misses exactly the zeros in front of a register not divisible by 4. */
  method DenseZerosAsWritten(buf: seq<Byte>) returns (n: nat)
    requires DenseBuf(buf) && buf[HEADER + DENSE_BYTES] == 0
    ensures n <= ZeroRegs(Regs(buf)) && (n == ZeroRegs(Regs(buf)) <==> ZerosSeen(Regs(buf), REGISTERS))
  {
    n := 0;
    ghost var r := Regs(buf);
    var reg: nat := 0;
    while reg < REGISTERS
      invariant reg <= REGISTERS && n <= ZeroRegs(r[..reg]) && (n == ZeroRegs(r[..reg]) <==> ZerosSeen(r, reg))
    {
      LiteralRead(buf, reg);
      TakeOne(r, reg);
      ReadsZero(r, reg);
      ZerosSeenStep(r, reg);
      if GetRegLiteral(buf, reg) == 0 {
        n := n + 1;
      }
      reg := reg + 1;
    }
    assert r[..REGISTERS] == r;
  }

  // Over runs.

  /** val * cnt */
  function Weigh(val: real, cnt: nat): real { val * cnt as real }

  /** What a run adds to the sum. */
  ghost function Term(f: Flag): real { HSum(Rep(ValueOf(f), f.count)) }

  lemma SumStep(fs: seq<Flag>, k: nat)
    requires AllFit(fs) && k < |fs|
    ensures HSum(Vec(fs[..k + 1])) == HSum(Vec(fs[..k])) + Term(fs[k])
  {
    PrefixStep(fs, k);
    HSumConcat(Vec(fs[..k]), Rep(ValueOf(fs[k]), fs[k].count));
  }

  lemma ZeroStep(fs: seq<Flag>, k: nat)
    requires AllFit(fs) && k < |fs|
    ensures ZeroRegs(Vec(fs[..k + 1])) == ZeroRegs(Vec(fs[..k])) + if fs[k].Val? then 0 else fs[k].count
  {
    PrefixStep(fs, k);
    ZeroRegsConcat(Vec(fs[..k]), Rep(ValueOf(fs[k]), fs[k].count));
    ZeroRegsRep(ValueOf(fs[k]), fs[k].count);
  }

  lemma TermIs(f: Flag)
    ensures Term(f) == Weigh(if f.Val? then Inv(f.value) else 1.0, f.count)
  {
    HSumRep(ValueOf(f), f.count);
  }

  /** The branches of the loop body of estimate_cnt_s. */
  method FlagTerm(bs: seq<Byte>, fn: nat, ghost fs: seq<Flag>, ghost k: nat) returns (term: real, last: nat)
    requires AtFlag(bs, fn, fs, k) && k < |fs|
    ensures term == Term(fs[k]) && AtFlag(bs, last + 1, fs, k + 1)
  {
    TermIs(fs[k]);
    ReadAt(bs, fs, k);
    var cnt;
    cnt, last := FlagCount(bs, fn, fs, k);
    var val := 1.0;
    if IsVal(bs[fn]) {
      val := Reciprocal(ValValue(bs[fn]));
    }
    term := Weigh(val, cnt);
  }

  /** The sum of estimate_cnt_s, run by run. */
  method SparseSum(bs: seq<Byte>, ghost fs: seq<Flag>) returns (sum: real)
    requires AllFit(fs) && bs == Enc(fs)
    ensures sum == HSum(Vec(fs))
  {
    sum := 0.0;
    var fn: nat := 0;
    ghost var k: nat := 0;
    assert fs[..0] == [];
    while fn < |bs|
      invariant AtFlag(bs, fn, fs, k) && sum == HSum(Vec(fs[..k]))
      decreases |fs| - k
    {
      NotAtEnd(fs, k);
      SumStep(fs, k);
      var term, last := FlagTerm(bs, fn, fs, k);
      sum := sum + term;
      fn, k := last + 1, k + 1;
    }
    NotAtEnd(fs, k);
    assert fs[..k] == fs;
  }

  /** The branches of the loop body of cnt_zero_regs. */
  method FlagZeros(bs: seq<Byte>, fn: nat, ghost fs: seq<Flag>, ghost k: nat) returns (n: nat, last: nat)
    requires AtFlag(bs, fn, fs, k) && k < |fs|
    ensures n == (if fs[k].Val? then 0 else fs[k].count) && AtFlag(bs, last + 1, fs, k + 1)
  {
    ReadAt(bs, fs, k);
    PosStep(fs, k);
    n, last := 0, fn;
    if IsZero(bs[fn]) {
      n := ZeroCnt(bs[fn]);
    } else if !IsVal(bs[fn]) {
      last := fn + 1;
      n := XZeroCnt(bs[fn], bs[last]);
    }
  }

  /** The count of zero registers of a sparse string as intended, with is_zero where the code has iszero. */
  method SparseZeros(bs: seq<Byte>, ghost fs: seq<Flag>) returns (n: nat)
    requires AllFit(fs) && bs == Enc(fs)
    ensures n == ZeroRegs(Vec(fs))
  {
    n := 0;
    var fn: nat := 0;
    ghost var k: nat := 0;
    assert fs[..0] == [];
    while fn < |bs|
      invariant AtFlag(bs, fn, fs, k) && n == ZeroRegs(Vec(fs[..k]))
      decreases |fs| - k
    {
      NotAtEnd(fs, k);
      ZeroStep(fs, k);
      var zeros, last := FlagZeros(bs, fn, fs, k);
      n := n + zeros;
      fn, k := last + 1, k + 1;
    }
    NotAtEnd(fs, k);
    assert fs[..k] == fs;
  }

  // The count as it stands: iszero tells a zero byte, so any longer ZERO is taken for an XZERO.

  /** The next byte is the terminator if there is none. */
  ghost function LiteralZeros(bs: seq<Byte>): nat {
    if bs == [] then 0
    else if bs[0] == 0 then ZeroCnt(bs[0]) + LiteralZeros(bs[1..])
    else if IsVal(bs[0]) then LiteralZeros(bs[1..])
    else if |bs| == 1 then XZeroCnt(bs[0], 0)
    else XZeroCnt(bs[0], bs[1]) + LiteralZeros(bs[2..])
  }

  /** No ZERO is longer than one register. */
  ghost predicate Singles(fs: seq<Flag>) {
    forall i {:trigger fs[i]} :: 0 <= i < |fs| ==> fs[i].Zero? ==> fs[i].count == 1
  }

  lemma SinglesStep(fs: seq<Flag>)
    requires fs != []
    ensures Singles(fs) <==> (fs[0].Zero? ==> fs[0].count == 1) && Singles(fs[1..])
  {
    var t := fs[1..];
    assert forall i :: 0 <= i < |t| ==> t[i] == fs[i + 1];
    assert forall i :: 0 < i < |fs| ==> fs[i] == t[i - 1];
  }

  lemma SeparatedStep(fs: seq<Flag>)
    requires fs != [] && AllFit(fs) && Separated(fs)
    ensures AllFit(fs[1..]) && Separated(fs[1..]) && Fits(fs[0])
    ensures |fs| > 1 && !fs[0].Val? ==> fs[1..][0].Val?
  {
    var t := fs[1..];
    assert |fs| > 1 ==> fs[0].Val? || fs[0 + 1].Val?;
    forall i | 0 <= i < |t| - 1
      ensures t[i].Val? || t[i + 1].Val?
    {
      assert fs[i + 1].Val? || fs[i + 1 + 1].Val?;
    }
  }

  lemma ZerosOfHead(fs: seq<Flag>)
    requires fs != [] && Fits(fs[0])
    ensures ZeroRegs(Vec(fs)) == (if fs[0].Val? then 0 else fs[0].count) + ZeroRegs(Vec(fs[1..]))
  {
    ZeroRegsRep(ValueOf(fs[0]), fs[0].count);
    ZeroRegsConcat(Rep(ValueOf(fs[0]), fs[0].count), Vec(fs[1..]));
  }

  /**
   Where runs of zeros are apart, the count never falls short, and it is right exactly where no ZERO is longer than one
   register.
   */
  lemma {:induction false} LiteralZerosExact(fs: seq<Flag>)
    requires AllFit(fs) && Separated(fs)
    ensures LiteralZeros(Enc(fs)) >= ZeroRegs(Vec(fs))
    ensures LiteralZeros(Enc(fs)) == ZeroRegs(Vec(fs)) <==> Singles(fs)
  {
    if fs != [] {
      var f, rest := fs[0], fs[1..];
      SeparatedStep(fs);
      SinglesStep(fs);
      ZerosOfHead(fs);
      if f.Zero? && f.count > 1 {
        LongZero(f, rest);
        if rest != [] {
          SeparatedStep(rest);
          ZerosOfHead(rest);
          LiteralZerosExact(rest[1..]);
        }
      } else {
        LiteralStep(f, Enc(rest));
        LiteralZerosExact(rest);
      }
    }
  }

  /** A longer ZERO is counted with the VAL after it, or with the terminator, as hundreds of registers. */
  lemma LongZero(f: Flag, rest: seq<Flag>)
    requires f.Zero? && Fits(f) && f.count > 1 && AllFit(rest) && (rest != [] ==> rest[0].Val?)
    ensures rest == [] ==> LiteralZeros(EncFlag(f) + Enc(rest)) > f.count
    ensures rest != [] ==> AllFit(rest[1..]) && LiteralZeros(EncFlag(f) + Enc(rest)) > f.count + LiteralZeros(Enc(rest[1..]))
  {
    var b: int := f.count - 1;
    if rest == [] {
      Nil(EncFlag(f));
      Hundreds(b, 0);
    } else {
      assert Fits(rest[0]);
      OneByte(rest[0]);
      var x := EncFlag(rest[0])[0];
      PairUp(b, x, Enc(rest[1..]));
      LiteralTwo(b, x, Enc(rest[1..]));
      Hundreds(b, x);
    }
  }

  lemma Hundreds(b: Byte, x: Byte)
    requires 0 < b < 64
    ensures XZeroCnt(b, x) > b + 1
  {
  }

  lemma PairUp(b: Byte, x: Byte, bs: seq<Byte>)
    ensures [b] + ([x] + bs) == [b, x] + bs
  {
  }

  lemma LiteralStep(f: Flag, bs: seq<Byte>)
    requires Fits(f) && (f.Zero? ==> f.count == 1)
    ensures LiteralZeros(EncFlag(f) + bs) == (if f.Val? then 0 else f.count) + LiteralZeros(bs)
  {
    match f
    case Val(v, n) => ValDecodes(v, n); LiteralOne(ValByte(v, n), bs);
    case Zero(n) => LiteralOne(0, bs);
    case XZero(n) => XZeroDecodes(n); LiteralTwo(EncFlag(f)[0], EncFlag(f)[1], bs);
  }

  lemma LiteralOne(b: Byte, bs: seq<Byte>)
    requires b == 0 || IsVal(b)
    ensures LiteralZeros([b] + bs) == (if b == 0 then 1 else 0) + LiteralZeros(bs)
  {
    assert ([b] + bs)[1..] == bs;
  }

  lemma LiteralTwo(msb: Byte, lsb: Byte, bs: seq<Byte>)
    requires msb != 0 && !IsVal(msb)
    ensures LiteralZeros([msb, lsb] + bs) == XZeroCnt(msb, lsb) + LiteralZeros(bs)
  {
    assert ([msb, lsb] + bs)[2..] == bs;
  }

  /**
   A string of 16384 registers on which 385 zeros are counted for two. hll_init and one add to register 2 leave it
   (HllLiteral.AddToTwo).
   */
  lemma LiteralZerosFails()
    ensures var fs := [Zero(2), Val(1, 1), XZero(16381)];
      AllFit(fs) && Separated(fs) && |Vec(fs)| == 16384 && ZeroRegs(Vec(fs)) == 16383 && LiteralZeros(Enc(fs)) == 385 + 16381
  {
    var fs := [Zero(2), Val(1, 1), XZero(16381)];
    assert fs[1..] == [Val(1, 1), XZero(16381)] && fs[2..] == [XZero(16381)] && fs[1..][1..] == fs[2..];
    VecOne(XZero(16381));
    ZerosOfHead(fs);
    ZerosOfHead(fs[1..]);
    ZeroRegsRep(0, 16381);
    LiteralExample();
  }

  lemma LiteralExample()
    ensures var fs := [Zero(2), Val(1, 1), XZero(16381)]; AllFit(fs) && LiteralZeros(Enc(fs)) == 385 + 16381
  {
    var x := XZero(16381);
    ExampleBytes(x);
    Nil(EncFlag(x));
    LiteralStep(x, []);
    LiteralTwo(1, 128, EncFlag(x));
  }

  lemma ExampleBytes(x: Flag)
    requires Fits(x)
    ensures AllFit([Zero(2), Val(1, 1), x]) && Enc([Zero(2), Val(1, 1), x]) == [1, 128] + EncFlag(x)
  {
    EncOne(x);
    EncCons(Val(1, 1), [x]);
    EncCons(Zero(2), [Val(1, 1)] + [x]);
    assert [Zero(2)] + ([Val(1, 1)] + [x]) == [Zero(2), Val(1, 1), x];
    PairUp(1, 128, EncFlag(x));
  }

  // The estimate.

  /** What hll_count makes of a harmonic sum and a number of zero registers. */
  type Estimator = (real, nat) -> int

  /** The cardinality estimate of a register vector. */
  ghost function Estimate(r: seq<nat>, est: Estimator): int {
    est(HSum(r), ZeroRegs(r))
  }

  const PREF: real := 0.7213 / (1.0 + 1.079 / 16384.0) * 16384.0 * 16384.0

  /** The formula of hll_count with its small range correction; the natural logarithm is taken as given. */
  function Corrected(sum: real, zeros: nat, log: real -> real): real
    requires sum > 0.0
  {
    var e := PREF * (1.0 / sum);
    if e <= 2.5 * 16384.0 && zeros > 0 then log(16384.0 / zeros as real) * 16384.0 else e
  }

  /** The formula, rounded. */
  function Formula(log: real -> real): Estimator {
    (sum: real, zeros: nat) => if sum > 0.0 then (Corrected(sum, zeros, log) + 0.5).Floor else 0
  }

  /** No register vector has a sum that the formula cannot divide by. */
  lemma FormulaApplies(r: seq<nat>, log: real -> real)
    requires r != []
    ensures HSum(r) > 0.0 && Estimate(r, Formula(log)) == (Corrected(HSum(r), ZeroRegs(r), log) + 0.5).Floor
  {
    HSumPositive(r);
  }

  /** The bias constant times the square of the number of registers, which the raw estimate divides by the sum. */
  const SCALE: real := 0.7213 / (1.0 + 1.079 / 16384.0) * 268435456.0

  lemma Divided(sum: real)
    requires sum > 0.0
    ensures PREF * (1.0 / sum) * sum == SCALE
  {
    assert 1.0 / sum * sum == 1.0;
    Regroup(PREF, 1.0 / sum, sum);
  }

  lemma Regroup(a: real, b: real, c: real)
    ensures a * b * c == a * (b * c)
  {
  }

  /** Without a zero register, or with a raw estimate above 40960, the answer is the raw estimate. */
  lemma RawEstimate(sum: real, zeros: nat, log: real -> real)
    requires sum > 0.0 && (zeros == 0 || SCALE > 40960.0 * sum)
    ensures Corrected(sum, zeros, log) * sum == 0.7213 / (1.0 + 1.079 / 16384.0) * 268435456.0
  {
    Divided(sum);
    if SCALE > 40960.0 * sum {
      AboveLimit(PREF * (1.0 / sum), sum);
    }
  }

  lemma AboveLimit(e: real, sum: real)
    requires sum > 0.0 && e * sum == SCALE
    ensures SCALE > 40960.0 * sum <==> e > 40960.0
  {
    if e > 40960.0 {
      assert (e - 40960.0) * sum > 0.0;
    } else {
      assert (40960.0 - e) * sum >= 0.0;
    }
  }

  /** With zero registers and a raw estimate of at most 40960, the number of zeros alone decides: linear counting. */
  lemma LinearCounting(sum: real, zeros: nat, log: real -> real)
    requires sum > 0.0 && zeros > 0 && SCALE <= 40960.0 * sum
    ensures Corrected(sum, zeros, log) == 16384.0 * log(16384.0 / zeros as real)
  {
    Divided(sum);
    AboveLimit(PREF * (1.0 / sum), sum);
  }

  ghost predicate Monotone(log: real -> real) { forall x, y :: 0.0 < x <= y ==> log(x) <= log(y) }

  /** Fewer zero registers do not give a smaller answer. */
  lemma FewerZeros(sum: real, zeros: nat, sum': real, zeros': nat, log: real -> real)
    requires sum > 0.0 && sum' > 0.0 && 0 < zeros' <= zeros && SCALE <= 40960.0 * sum && SCALE <= 40960.0 * sum'
    requires Monotone(log)
    ensures Corrected(sum, zeros, log) <= Corrected(sum', zeros', log)
    ensures Formula(log)(sum, zeros) <= Formula(log)(sum', zeros')
  {
    LinearCounting(sum, zeros, log);
    LinearCounting(sum', zeros', log);
    SmallerShare(zeros as real, zeros' as real);
  }

  lemma SmallerShare(x: real, y: real)
    requires 0.0 < y <= x
    ensures 0.0 < 16384.0 / x <= 16384.0 / y
  {
    var a, b := 16384.0 / x, 16384.0 / y;
    assert a * x == 16384.0 && b * y == 16384.0;
    assert a * (x - y) >= 0.0;
    CancelFactor(a, b, y);
  }

  lemma CancelFactor(a: real, b: real, y: real)
    requires y > 0.0 && a * y <= b * y
    ensures a <= b
  {
    assert (b - a) * y >= 0.0;
  }

  /** Registers that are all zero count nothing. */
  lemma EmptyEstimate(log: real -> real, n: nat)
    requires log(1.0) == 0.0 && n == REGISTERS
    ensures Estimate(Rep(0, n), Formula(log)) == 0
  {
    HSumRep(0, n);
    ZeroRegsRep(0, n);
    EmptyAnswer(log, n);
  }

  lemma EmptyAnswer(log: real -> real, n: nat)
    requires log(1.0) == 0.0 && n == 16384
    ensures Formula(log)(n as real, n) == 0
  {
    LinearCounting(16384.0, n, log);
  }
}
