/** add_sparse of hyperloglog.cpp as it is written, below its conversion guard, and exactly when it raises the register. */
module HllLiteral {
  import opened Bytes
  import opened Seqs
  import opened HllFlags
  import opened HllSparse
  import opened HllMerge

  /** The vector that add_sparse is meant to leave. */
  ghost function Raised(fs: seq<Flag>, reg: nat, val: nat): seq<nat>
    requires reg < |Vec(fs)|
  {
    Vec(fs)[reg := Max(Vec(fs)[reg], val)]
  }

  /** A run of a smaller value is to be split at `reg`, in a list in which runs of zeros are apart. */
  ghost predicate Splits(fs: seq<Flag>, k: nat, reg: nat, val: nat) {
    Holds(fs, k, reg) && Separated(fs) && ValueOf(fs[k]) < val <= MAX_VALUE
  }

  lemma RaisedIs(fs: seq<Flag>, k: nat, reg: nat, val: nat)
    requires Splits(fs, k, reg, val)
    ensures reg < |Vec(fs)| && Raised(fs, reg, val) == Vec(fs)[reg := val]
  {
    VecAt(fs, k, reg);
  }

  /** `out` differs from the intended vector at register x. */
  ghost predicate Wrong(out: seq<Byte>, fs: seq<Flag>, reg: nat, val: nat) {
    reg < |Vec(fs)| && Vec(Parse(out)) != Raised(fs, reg, val)
  }

  /** A flag of the output against a flag of the list. */
  lemma DiffersAt(out: seq<Byte>, pre: seq<Flag>, f: Flag, rest: seq<Byte>, i: nat, fs: seq<Flag>, k: nat, reg: nat, val: nat)
    requires Splits(fs, k, reg, val) && AllFit(pre) && Fits(f) && out == Enc(pre) + EncFlag(f) + rest && i < f.count
    requires reg < |Vec(fs)| && (|Vec(pre)| + i < |Vec(fs)| ==> Vec(fs)[reg := val][|Vec(pre)| + i] != ValueOf(f))
    ensures Wrong(out, fs, reg, val)
  {
    RaisedIs(fs, k, reg, val);
    FlagShows(pre, f, rest, out, i);
  }

  // A VAL run of more than one register: its parts come out one too large.

  ghost function LitParts(f: Flag, off: nat, val: nat): seq<Flag>
    requires f.Val? && off < f.count
  {
    Three(Val(f.value + 1, off), val, Val(f.value + 1, f.count - 1 - off))
  }

  /** The list with such a run split as written. */
  ghost predicate LitSplit(fs: seq<Flag>, k: nat, reg: nat, val: nat, hs: seq<Flag>) {
    Splits(fs, k, reg, val) && fs[k].Val? && fs[k].count > 1 && fs[k].value + 1 < val &&
    AllFit(hs) && hs == Replaced(fs, k, LitParts(fs[k], reg - RegPos(fs, k), val))
  }

  lemma LitSplitFlags(fs: seq<Flag>, k: nat, reg: nat, val: nat, hs: seq<Flag>)
    requires LitSplit(fs, k, reg, val, hs)
    ensures k + 1 < |hs| && hs[..k] == fs[..k] && hs[k].Val? && hs[k + 1].Val? && hs[k].value != hs[k + 1].value
    ensures var off := reg - RegPos(fs, k);
      if off > 0 then hs[k] == Val(fs[k].value + 1, off)
      else hs[k] == Val(val, 1) && hs[k + 1] == Val(fs[k].value + 1, fs[k].count - 1)
  {
  }

  /** From the second piece on. */
  lemma WrongAfter(fs: seq<Flag>, k: nat, reg: nat, val: nat, hs: seq<Flag>, end: nat, n: nat)
    requires LitSplit(fs, k, reg, val, hs) && end >= |Enc(hs)| && n <= 5 && k + 1 <= |hs|
    ensures Wrong(LitMerge(Enc(hs), Pos(hs, k + 1), end, n), fs, reg, val)
  {
    LitSplitFlags(fs, k, reg, val, hs);
    Nil(Enc(hs));
    VecAt(fs, k, reg);
    if reg > RegPos(fs, k) {
      FirstPartStays(fs, k, reg, val, hs, Pos(hs, k + 1), end, n);
    } else {
      var f, rest := Climb(hs, [], k + 1, end, n);
      ReachBack(hs[k + 1].value, f.value, n);
      SecondPart(fs, k, reg, val, hs);
      VecAt(fs, k, reg + 1);
      DiffersAt(LitMerge(Enc(hs), Pos(hs, k + 1), end, n), hs[..k + 1], f, rest, 0, fs, k, reg, val);
    }
  }

  lemma FirstPartStays(fs: seq<Flag>, k: nat, reg: nat, val: nat, hs: seq<Flag>, p: nat, end: nat, n: nat)
    requires LitSplit(fs, k, reg, val, hs) && reg > RegPos(fs, k) && k + 1 <= |hs| && p >= Pos(hs, k + 1)
    ensures Wrong(LitMerge(Enc(hs), p, end, n), fs, reg, val)
  {
    LitSplitFlags(fs, k, reg, val, hs);
    Nil(Enc(hs));
    var rest := KeepsFlags(hs, [], k + 1, p, end, n);
    PrefixStep(hs, k);
    VecAt(fs, k, RegPos(fs, k));
    VecAt(fs, k, reg);
    DiffersAt(LitMerge(Enc(hs), p, end, n), hs[..k], hs[k], rest, 0, fs, k, reg, val);
  }

  lemma SecondPart(fs: seq<Flag>, k: nat, reg: nat, val: nat, hs: seq<Flag>)
    requires LitSplit(fs, k, reg, val, hs) && reg == RegPos(fs, k) && k + 1 < |hs|
    ensures AllFit(hs[..k + 1]) && |Vec(hs[..k + 1])| == reg + 1
  {
    LitSplitFlags(fs, k, reg, val, hs);
    PrefixStep(hs, k);
  }

  /** No few merges bring a value back to one below. */
  lemma ReachBack(u: nat, u': nat, n: nat)
    requires Reach(u, u', n) && n <= 5 && 2 <= u < MAX_VALUE
    ensures u' + 1 != u
  {
  }

  /** From the first piece on. */
  lemma WrongFrom(fs: seq<Flag>, k: nat, reg: nat, val: nat, hs: seq<Flag>, end: nat, n: nat)
    requires LitSplit(fs, k, reg, val, hs) && end >= |Enc(hs)| && 0 < n <= 5 && k <= |hs|
    ensures Wrong(LitMerge(Enc(hs), Pos(hs, k), end, n), fs, reg, val)
  {
    LitSplitFlags(fs, k, reg, val, hs);
    JustOver(hs, k, end, n);
    WrongAfter(fs, k, reg, val, hs, end, n - 1);
  }

  /** From the flag before, when that is one byte long. */
  lemma WrongAligned(fs: seq<Flag>, k: nat, reg: nat, val: nat, hs: seq<Flag>, n: nat)
    requires LitSplit(fs, k, reg, val, hs) && Back(k) <= |hs| && 2 <= n <= 5
    ensures Wrong(LitMerge(Enc(hs), Pos(hs, Back(k)), |Enc(hs)|, n), fs, reg, val)
  {
    LitSplitFlags(fs, k, reg, val, hs);
    if k == 0 {
      WrongFrom(fs, k, reg, val, hs, |Enc(hs)|, n);
    } else if Mergeable(hs[k - 1], hs[k]) {
      PrevMerged(fs, k, reg, val, hs, n);
    } else {
      PrevPassed(fs, k, reg, val, hs, n);
    }
  }

  lemma PrevPassed(fs: seq<Flag>, k: nat, reg: nat, val: nat, hs: seq<Flag>, n: nat)
    requires LitSplit(fs, k, reg, val, hs) && 0 < k < |hs| && !Mergeable(hs[k - 1], hs[k]) && 2 <= n <= 5
    ensures Wrong(LitMerge(Enc(hs), Pos(hs, k - 1), |Enc(hs)|, n), fs, reg, val)
  {
    JustOver(hs, k - 1, |Enc(hs)|, n);
    WrongFrom(fs, k, reg, val, hs, |Enc(hs)|, n - 1);
  }

  /** A merge with the flag before changes that flag's value. */
  lemma PrevMerged(fs: seq<Flag>, k: nat, reg: nat, val: nat, hs: seq<Flag>, n: nat)
    requires LitSplit(fs, k, reg, val, hs) && 0 < k < |hs| && Mergeable(hs[k - 1], hs[k]) && 2 <= n <= 5
    ensures Wrong(LitMerge(Enc(hs), Pos(hs, k - 1), |Enc(hs)|, n), fs, reg, val)
  {
    LitSplitFlags(fs, k, reg, val, hs);
    Nil(Enc(hs));
    var f, rest := Climb(hs, [], k - 1, |Enc(hs)|, n);
    PrevUntouched(fs, k, reg, val);
    SamePrev(hs, fs, k);
    DiffersAt(LitMerge(Enc(hs), Pos(hs, k - 1), |Enc(hs)|, n), hs[..k - 1], f, rest, 0, fs, k, reg, val);
  }

  lemma SamePrev(hs: seq<Flag>, fs: seq<Flag>, k: nat)
    requires 0 < k <= |hs| && k <= |fs| && hs[..k] == fs[..k]
    ensures hs[k - 1] == fs[k - 1] && hs[..k - 1] == fs[..k - 1]
  {
    assert hs[k - 1] == hs[..k][k - 1] && hs[..k - 1] == hs[..k][..k - 1];
    assert fs[k - 1] == fs[..k][k - 1] && fs[..k - 1] == fs[..k][..k - 1];
  }

  lemma PrevUntouched(fs: seq<Flag>, k: nat, reg: nat, val: nat)
    requires Splits(fs, k, reg, val) && 0 < k
    ensures RegPos(fs, k - 1) < reg < |Vec(fs)| && Vec(fs)[reg := val][RegPos(fs, k - 1)] == ValueOf(fs[k - 1])
  {
    PosStep(fs, k - 1);
    VecAt(fs, k - 1, RegPos(fs, k - 1));
    VecAt(fs, k, reg);
    assert Fits(fs[k - 1]);
  }

  // The flag before is an XZERO, and the merge starts on its second byte.

  lemma LitSplitLength(fs: seq<Flag>, k: nat, reg: nat, val: nat, hs: seq<Flag>)
    requires LitSplit(fs, k, reg, val, hs)
    ensures |Vec(hs)| == |Vec(fs)|
  {
    LitPartsLength(fs[k], reg - RegPos(fs, k), val);
    ReplacedLength(fs, k, LitParts(fs[k], reg - RegPos(fs, k), val));
  }

  lemma LitPartsLength(f: Flag, off: nat, val: nat)
    requires f.Val? && off < f.count
    ensures |Vec(LitParts(f, off, val))| == f.count
  {
    ThreePieces(Val(f.value + 1, off), val, Val(f.value + 1, f.count - 1 - off));
  }

  lemma ReplacedLength(fs: seq<Flag>, k: nat, ts: seq<Flag>)
    requires k < |fs|
    ensures |Vec(Replaced(fs, k, ts))| + fs[k].count == |Vec(fs)| + |Vec(ts)|
  {
    VecConcat(fs[..k], ts);
    VecConcat(fs[..k] + ts, fs[k + 1..]);
    Around(fs, k);
    ThreeVec(fs[..k], fs[k], fs[k + 1..]);
  }

  lemma WrongInside(fs: seq<Flag>, k: nat, reg: nat, val: nat, hs: seq<Flag>, p: nat, n: nat)
    requires LitSplit(fs, k, reg, val, hs) && InXZero(hs, k, p) && 2 <= n <= 5
    ensures Wrong(LitMerge(Enc(hs), p, |Enc(hs)|, n), fs, reg, val)
  {
    if Swallows(hs, k, p) {
      WrongSwallowed(fs, k, reg, val, hs, p, n);
    } else {
      MissStep(hs, k, p, |Enc(hs)|, n);
      WrongMissed(fs, k, reg, val, hs, p, n);
    }
  }

  /** Past the second byte the loop is at the first piece, or past it. */
  lemma WrongMissed(fs: seq<Flag>, k: nat, reg: nat, val: nat, hs: seq<Flag>, p: nat, n: nat)
    requires LitSplit(fs, k, reg, val, hs) && InXZero(hs, k, p) && 2 <= n <= 5
    ensures Wrong(LitMerge(Enc(hs), p + 1, |Enc(hs)|, n - 1), fs, reg, val)
    ensures Wrong(LitMerge(Enc(hs), p + 2, |Enc(hs)|, n - 1), fs, reg, val)
  {
    WrongFrom(fs, k, reg, val, hs, |Enc(hs)|, n - 1);
    SecondAt(fs, k, reg, val, hs);
    WrongAfter(fs, k, reg, val, hs, |Enc(hs)|, n - 1);
  }

  lemma SecondAt(fs: seq<Flag>, k: nat, reg: nat, val: nat, hs: seq<Flag>)
    requires LitSplit(fs, k, reg, val, hs)
    ensures k + 1 < |hs| && Pos(hs, k + 1) == Pos(hs, k) + 1
  {
    LitSplitFlags(fs, k, reg, val, hs);
    PosStep(hs, k);
    OneByte(hs[k]);
  }

  /** The XZERO has become longer, and hides the register after it, or much shorter, and registers are missing. */
  lemma WrongSwallowed(fs: seq<Flag>, k: nat, reg: nat, val: nat, hs: seq<Flag>, p: nat, n: nat)
    requires LitSplit(fs, k, reg, val, hs) && InXZero(hs, k, p) && Swallows(hs, k, p) && 2 <= n <= 5
    ensures Wrong(LitMerge(Enc(hs), p, |Enc(hs)|, n), fs, reg, val)
  {
    var gs, c := DriftAway(hs, k, p, |Enc(hs)|, n);
    WrongDrift(fs, k, reg, val, hs, gs, c, LitMerge(Enc(hs), p, |Enc(hs)|, n), n);
  }

  lemma WrongDrift(fs: seq<Flag>, k: nat, reg: nat, val: nat, hs: seq<Flag>, gs: seq<Flag>, c: nat, out: seq<Byte>, n: nat)
    requires LitSplit(fs, k, reg, val, hs) && 0 < k <= |hs| && hs[k - 1].XZero? && n <= 5 && Drifted(hs, k, n, gs, c, out)
    requires var c0 := hs[k - 1].count;
      LowReach(c0, c, n) && IsVal(LowByte(c0)) && ValValue(LowByte(c)) != ValValue(LowByte(c0))
    ensures Wrong(out, fs, reg, val)
  {
    LowJump(hs[k - 1].count, c, n);
    if c > hs[k - 1].count {
      Hidden(fs, k, reg, val, hs, gs, c, out, n);
    } else {
      LitSplitLength(fs, k, reg, val, hs);
      ParseEnc(gs);
      VecAt(fs, k, reg);
    }
  }

  /** A second byte moved by merges is larger, or smaller by far. */
  lemma LowJump(c: nat, c': nat, n: nat)
    requires LowReach(c, c', n) && n <= 5 && IsVal(LowByte(c)) && ValValue(LowByte(c')) != ValValue(LowByte(c))
    ensures c' > c || c' + 5 < c
  {
    ByteSplit(LowByte(c));
    ByteSplit(LowByte(c'));
  }

  lemma ByteSplit(y: Byte)
    requires IsVal(y)
    ensures y == 124 + 4 * ValValue(y) + ValCnt(y) - 1 && 1 <= ValValue(y) <= MAX_VALUE && 1 <= ValCnt(y) <= 4
  {
  }

  lemma Hidden(fs: seq<Flag>, k: nat, reg: nat, val: nat, hs: seq<Flag>, gs: seq<Flag>, c: nat, out: seq<Byte>, n: nat)
    requires LitSplit(fs, k, reg, val, hs) && 0 < k <= |hs| && hs[k - 1].XZero? && hs[k - 1].count < c
    requires Drifted(hs, k, n, gs, c, out)
    ensures Wrong(out, fs, reg, val)
  {
    LitSplitFlags(fs, k, reg, val, hs);
    SamePrev(hs, fs, k);
    CutAt(gs, k - 1);
    StartHasValue(fs, k, reg, val);
    DiffersAt(out, gs[..k - 1], gs[k - 1], Enc(gs[k..]), hs[k - 1].count, fs, k, reg, val);
  }

  lemma StartHasValue(fs: seq<Flag>, k: nat, reg: nat, val: nat)
    requires Splits(fs, k, reg, val) && fs[k].Val? && k > 0
    ensures RegPos(fs, k) == RegPos(fs, k - 1) + fs[k - 1].count < |Vec(fs)| && reg < |Vec(fs)|
    ensures Vec(fs)[reg := val][RegPos(fs, k)] > 0
  {
    PosStep(fs, k - 1);
    assert Fits(fs[k]);
    VecAt(fs, k, reg);
    VecAt(fs, k, RegPos(fs, k));
  }

  // A run of zeros: right unless a part is 65 long or something is merged.

  /** The flag before a run of zeros is one byte long. */
  lemma PrevIsVal(fs: seq<Flag>, k: nat)
    requires AllFit(fs) && Separated(fs) && 0 < k < |fs| && !fs[k].Val?
    ensures fs[k - 1].Val? && Pos(fs, k) - 1 == Pos(fs, k - 1)
  {
    PosStep(fs, k - 1);
    OneByte(fs[k - 1]);
  }

  /** The bytes with the pieces of a run of zeros put in place as written. */
  ghost function LitZeros(fs: seq<Flag>, k: nat, a: nat, b: nat, val: nat): seq<Byte>
    requires AllFit(fs) && k < |fs| && a <= 16384 && b <= 16384 && 1 <= val <= MAX_VALUE
  {
    Enc(fs[..k]) + (ZeroPart(AsWritten, a) + [ValByte(val, 1)] + ZeroPart(AsWritten, b)) + Enc(fs[k + 1..])
  }

  lemma CleanBytes(fs: seq<Flag>, k: nat, a: nat, b: nat, val: nat)
    requires AllFit(fs) && k < |fs| && a + b < 16384 && a != 65 && b != 65 && 1 <= val <= MAX_VALUE
    ensures var hs := Replaced(fs, k, Three(ZeroRun(a), val, ZeroRun(b))); AllFit(hs) && LitZeros(fs, k, a, b, val) == Enc(hs)
  {
    var ts := Three(ZeroRun(a), val, ZeroRun(b));
    ZerosEnc(AsWritten, a, b, val);
    EncConcat(fs[..k], ts);
    EncConcat(fs[..k] + ts, fs[k + 1..]);
  }

  /** A run of zeros to be split. */
  ghost predicate ZeroSplit(fs: seq<Flag>, k: nat, reg: nat, val: nat, a: nat, b: nat) {
    Splits(fs, k, reg, val) && !fs[k].Val? && a == reg - RegPos(fs, k) && b == fs[k].count - 1 - a
  }

  lemma ZeroClean(fs: seq<Flag>, k: nat, reg: nat, val: nat, a: nat, b: nat, n: nat)
    requires ZeroSplit(fs, k, reg, val, a, b) && a != 65 && b != 65 && n <= 5 && a + b < 16384
    ensures var w, hs := LitZeros(fs, k, a, b, val), Replaced(fs, k, Split(fs[k], a, val));
      Wrong(LitMerge(w, Pos(fs, Back(k)), |w|, n), fs, reg, val) <==> Fires(hs, Back(k), n)
  {
    var hs := Replaced(fs, k, Split(fs[k], a, val));
    CleanBytes(fs, k, a, b, val);
    RaisedIs(fs, k, reg, val);
    SplitMeans(fs, k, reg, val);
    assert hs[..Back(k)] == fs[..Back(k)];
    MergeExact(hs, Back(k), n);
  }

  lemma First65Bytes(fs: seq<Flag>, k: nat, b: nat, val: nat)
    requires AllFit(fs) && k < |fs| && b <= 16384 && 1 <= val <= MAX_VALUE
    ensures var pre := fs[..k] + [XZero(ValByte(val, 1) + 1)];
      AllFit(pre) && LitZeros(fs, k, 65, b, val) == Enc(pre) + (ZeroPart(AsWritten, b) + Enc(fs[k + 1..]))
  {
    var f := XZero(ValByte(val, 1) + 1);
    Byte64(ValByte(val, 1));
    EncOne(f);
    EncConcat(fs[..k], [f]);
    Regroup5(Enc(fs[..k]), 64, ValByte(val, 1), ZeroPart(AsWritten, b), Enc(fs[k + 1..]));
  }

  lemma Byte64(x: Byte)
    ensures Fits(XZero(x + 1)) && EncFlag(XZero(x + 1)) == [64, x]
  {
  }

  lemma Regroup5(a: seq<Byte>, x: Byte, y: Byte, b: seq<Byte>, c: seq<Byte>)
    ensures a + ([x] + [y] + b) + c == a + [x, y] + (b + c)
  {
    assert [x] + [y] == [x, y];
  }

  /** An XZERO over a register that should have a value. */
  lemma Covered(fs: seq<Flag>, k: nat, reg: nat, val: nat, pre: seq<Flag>, f: Flag, tail: seq<Byte>, j: nat, n: nat, i: nat)
    requires Splits(fs, k, reg, val) && AllFit(pre) && Fits(f) && f.XZero? && i < f.count && reg < |Vec(fs)|
    requires |Vec(pre)| + i < |Vec(fs)| && Vec(fs)[reg := val][|Vec(pre)| + i] > 0
    requires j <= |pre| && |pre| + 1 - j <= n && AllFit(pre + [f]) && !Fires(pre + [f], j, |pre| + 1 - j)
    ensures var w := Enc(pre + [f]) + tail; Wrong(LitMerge(w, Pos(pre + [f], j), |w|, n), fs, reg, val)
  {
    var w := Enc(pre + [f]) + tail;
    var rest := KeepsAll(pre + [f], tail, j, |w|, n);
    EncOne(f);
    EncConcat(pre, [f]);
    DiffersAt(LitMerge(w, Pos(pre + [f], j), |w|, n), pre, f, rest, i, fs, k, reg, val);
  }

  /** Written as one byte, 65 zeros in front hide the new value. */
  lemma First65(fs: seq<Flag>, k: nat, reg: nat, val: nat, b: nat, n: nat)
    requires ZeroSplit(fs, k, reg, val, 65, b) && b <= 16384 && 2 <= n
    ensures var w := LitZeros(fs, k, 65, b, val); Wrong(LitMerge(w, Pos(fs, Back(k)), |w|, n), fs, reg, val)
  {
    var f, pre := XZero(ValByte(val, 1) + 1), fs[..k];
    First65Bytes(fs, k, b, val);
    Byte64(ValByte(val, 1));
    VecAt(fs, k, reg);
    NoFireBefore(fs, k, f);
    Covered(fs, k, reg, val, pre, f, ZeroPart(AsWritten, b) + Enc(fs[k + 1..]), Back(k), n, 65);
  }

  lemma NoFireBefore(fs: seq<Flag>, k: nat, f: Flag)
    requires k < |fs| && f.XZero?
    ensures var gs := fs[..k] + [f]; !Fires(gs, Back(k), k + 1 - Back(k)) && gs[..Back(k)] == fs[..Back(k)]
  {
  }

  /** The flags up to the new value. */
  ghost function UpTo(fs: seq<Flag>, k: nat, a: nat, val: nat): seq<Flag>
    requires k < |fs|
  {
    fs[..k] + Piece(ZeroRun(a)) + [Val(val, 1)]
  }

  lemma UpToEnc(fs: seq<Flag>, k: nat, a: nat, val: nat)
    requires AllFit(fs) && k < |fs| && a < 16384 && a != 65 && 1 <= val <= MAX_VALUE
    ensures AllFit(UpTo(fs, k, a, val)) && Enc(UpTo(fs, k, a, val)) == Enc(fs[..k]) + ZeroPart(AsWritten, a) + [ValByte(val, 1)]
    ensures |Vec(UpTo(fs, k, a, val))| == RegPos(fs, k) + a + 1
  {
    ZeroPartIs(AsWritten, a);
    PieceEnc(ZeroRun(a));
    PieceVec(ZeroRun(a));
    EncOne(Val(val, 1));
    VecOne(Val(val, 1));
    EncConcat(fs[..k], Piece(ZeroRun(a)));
    EncConcat(fs[..k] + Piece(ZeroRun(a)), [Val(val, 1)]);
    VecConcat(fs[..k], Piece(ZeroRun(a)));
    VecConcat(fs[..k] + Piece(ZeroRun(a)), [Val(val, 1)]);
  }

  lemma Second65Bytes(fs: seq<Flag>, k: nat, a: nat, val: nat)
    requires AllFit(fs) && k < |fs| && a < 16384 && a != 65 && 1 <= val <= MAX_VALUE
    ensures AllFit(UpTo(fs, k, a, val)) && LitZeros(fs, k, a, 65, val) == Enc(UpTo(fs, k, a, val)) + ([64] + Enc(fs[k + 1..]))
  {
    UpToEnc(fs, k, a, val);
    Regroup4(Enc(fs[..k]), ZeroPart(AsWritten, a), [ValByte(val, 1)], [64], Enc(fs[k + 1..]));
  }

  lemma Regroup4(a: seq<Byte>, b: seq<Byte>, c: seq<Byte>, d: seq<Byte>, e: seq<Byte>)
    ensures a + (b + c + d) + e == a + b + c + (d + e)
  {
  }

  /** The new value is merged with the flag before it. */
  ghost predicate MergesBack(fs: seq<Flag>, k: nat, a: nat, val: nat) {
    0 < k < |fs| && a == 0 && Mergeable(fs[k - 1], Val(val, 1))
  }

  lemma UpToFires(fs: seq<Flag>, k: nat, a: nat, val: nat)
    requires k < |fs|
    ensures var pre := UpTo(fs, k, a, val);
      pre[..Back(k)] == fs[..Back(k)] && |pre| - Back(k) <= 3 && pre[|pre| - 1] == Val(val, 1) &&
      (!MergesBack(fs, k, a, val) ==> !Fires(pre, Back(k), |pre| - Back(k)))
  {
    var pre := UpTo(fs, k, a, val);
    assert k > 0 ==> pre[k - 1] == fs[k - 1];
    assert pre[|pre| - 1] == Val(val, 1);
    assert a > 0 ==> pre[k] == ZeroRun(a);
  }

  lemma UpToFiresNot(fs: seq<Flag>, k: nat, a: nat, val: nat, f: Flag)
    requires k < |fs| && f.XZero? && !MergesBack(fs, k, a, val)
    ensures var gs, j := UpTo(fs, k, a, val) + [f], Back(k);
      !Fires(gs, j, |gs| - j) && gs[..j] == fs[..j] && |gs| - j <= 4
  {
    var pre := UpTo(fs, k, a, val);
    assert k > 0 ==> (pre + [f])[k - 1] == fs[k - 1];
    assert (pre + [f])[|pre| - 1] == Val(val, 1);
    assert a > 0 ==> (pre + [f])[k] == ZeroRun(a);
  }

  lemma MergedBack(fs: seq<Flag>, k: nat, reg: nat, val: nat, n: nat)
    requires ZeroSplit(fs, k, reg, val, 0, 65) && MergesBack(fs, k, 0, val) && 0 < n <= 5
    ensures var w := LitZeros(fs, k, 0, 65, val); Wrong(LitMerge(w, Pos(fs, Back(k)), |w|, n), fs, reg, val)
  {
    var w := LitZeros(fs, k, 0, 65, val);
    var f, rest := ClimbBack(fs, k, val, w, n);
    PrevUntouched(fs, k, reg, val);
    DiffersAt(LitMerge(w, Pos(fs, k - 1), |w|, n), fs[..k - 1], f, rest, 0, fs, k, reg, val);
  }

  lemma ClimbBack(fs: seq<Flag>, k: nat, val: nat, w: seq<Byte>, n: nat) returns (f: Flag, rest: seq<Byte>)
    requires AllFit(fs) && MergesBack(fs, k, 0, val) && 1 <= val <= MAX_VALUE && w == LitZeros(fs, k, 0, 65, val) && 0 < n <= 5
    ensures AllFit(fs[..k - 1]) && Fits(f) && ValueOf(f) != ValueOf(fs[k - 1])
    ensures LitMerge(w, Pos(fs, k - 1), |w|, n) == Enc(fs[..k - 1]) + EncFlag(f) + rest
  {
    var pre := UpTo(fs, k, 0, val);
    Second65Bytes(fs, k, 0, val);
    assert pre[k - 1] == fs[k - 1] && pre[k] == Val(val, 1) && pre[..k - 1] == fs[..k - 1];
    f, rest := Climb(pre, [64] + Enc(fs[k + 1..]), k - 1, |w|, n);
  }

  /** At the end of the bytes, 65 zeros written as one byte are no zeros. */
  lemma Second65Last(fs: seq<Flag>, k: nat, reg: nat, val: nat, a: nat, n: nat)
    requires ZeroSplit(fs, k, reg, val, a, 65) && a != 65 && a < 16384 && !MergesBack(fs, k, a, val) && k + 1 == |fs| && 4 <= n
    ensures var w := LitZeros(fs, k, a, 65, val); Wrong(LitMerge(w, Pos(fs, Back(k)), |w|, n), fs, reg, val)
  {
    var w, pre := LitZeros(fs, k, a, 65, val), UpTo(fs, k, a, val);
    Second65Bytes(fs, k, a, val);
    assert fs[k + 1..] == [];
    Nil(LastByte());
    UpToFires(fs, k, a, val);
    UpToEnc(fs, k, a, val);
    Walk(pre, [64], Back(k), |pre|, |w|, n);
    PosEnd(pre);
    LastStep(Enc(pre), n - (|pre| - Back(k)));
    ParseConcat(pre, [64]);
    Nil(pre);
    VecAt(fs, k, reg);
    PosStep(fs, k);
    PosEnd(fs);
  }

  function LastByte(): seq<Byte> { [64] }

  lemma LastStep(e: seq<Byte>, n: nat)
    requires n > 0
    ensures LitMerge(e + [64], |e|, |e| + 1, n) == e + [64] && Parse([64]) == []
  {
  }

  /** Before a VAL, 65 zeros written as one byte swallow it. */
  lemma Second65Val(fs: seq<Flag>, k: nat, reg: nat, val: nat, a: nat, n: nat)
    requires ZeroSplit(fs, k, reg, val, a, 65) && a != 65 && a < 16384 && !MergesBack(fs, k, a, val) && k + 1 < |fs| && 4 <= n
    ensures var w := LitZeros(fs, k, a, 65, val); Wrong(LitMerge(w, Pos(fs, Back(k)), |w|, n), fs, reg, val)
  {
    var x: int := NextByte(fs, k);
    Second65Whole(fs, k, a, val, x);
    NextRegister(fs, k, reg, val, a);
    UpToFiresNot(fs, k, a, val, XZero(x + 1));
    Covered(fs, k, reg, val, UpTo(fs, k, a, val), XZero(x + 1), Enc(fs[k + 2..]), Back(k), n, 65);
  }

  lemma Second65Whole(fs: seq<Flag>, k: nat, a: nat, val: nat, x: Byte)
    requires AllFit(fs) && k + 1 < |fs| && a < 16384 && a != 65 && 1 <= val <= MAX_VALUE
    requires fs[k + 1].Val? && x == EncFlag(fs[k + 1])[0]
    ensures var pre, f := UpTo(fs, k, a, val), XZero(x + 1);
      AllFit(pre) && Fits(f) && AllFit(pre + [f]) && AllFit(fs[k + 2..]) && |Vec(pre)| == RegPos(fs, k) + a + 1 &&
      LitZeros(fs, k, a, 65, val) == Enc(pre + [f]) + Enc(fs[k + 2..])
  {
    UpToEnc(fs, k, a, val);
    Second65Bytes(fs, k, a, val);
    Byte64(x);
    SwallowNext(fs, k, UpTo(fs, k, a, val), x);
  }

  /** The flag after a run of zeros is a VAL. */
  lemma NextByte(fs: seq<Flag>, k: nat) returns (x: Byte)
    requires AllFit(fs) && Separated(fs) && k + 1 < |fs| && !fs[k].Val?
    ensures fs[k + 1].Val? && x == EncFlag(fs[k + 1])[0] && x >= 128
  {
    assert fs[k].Val? || fs[k + 1].Val?;
    FirstByte(fs[k + 1]);
    x := EncFlag(fs[k + 1])[0];
  }

  lemma NextRegister(fs: seq<Flag>, k: nat, reg: nat, val: nat, a: nat)
    requires ZeroSplit(fs, k, reg, val, a, 65) && k + 1 < |fs| && fs[k + 1].Val?
    ensures RegPos(fs, k) + a + 66 < |Vec(fs)| && reg < |Vec(fs)| && Vec(fs)[reg := val][RegPos(fs, k) + a + 66] > 0
  {
    PosStep(fs, k);
    assert Fits(fs[k + 1]);
    VecAt(fs, k + 1, RegPos(fs, k + 1));
    VecAt(fs, k, reg);
  }

  lemma SwallowNext(fs: seq<Flag>, k: nat, pre: seq<Flag>, x: Byte)
    requires AllFit(fs) && AllFit(pre) && k + 1 < |fs| && fs[k + 1].Val? && x == EncFlag(fs[k + 1])[0]
    ensures AllFit(fs[k + 1..]) && AllFit(fs[k + 2..]) && AllFit(pre + [XZero(x + 1)])
    ensures Enc(pre) + ([64] + Enc(fs[k + 1..])) == Enc(pre + [XZero(x + 1)]) + Enc(fs[k + 2..])
  {
    var f := XZero(x + 1);
    Byte64(x);
    EncOne(f);
    EncConcat(pre, [f]);
    OneByte(fs[k + 1]);
    NextEnc(fs, k + 1);
    Regroup3(Enc(pre), 64, x, Enc(fs[k + 2..]));
  }

  lemma NextEnc(fs: seq<Flag>, k: nat)
    requires AllFit(fs) && k < |fs|
    ensures AllFit(fs[k..]) && AllFit(fs[k + 1..]) && Enc(fs[k..]) == EncFlag(fs[k]) + Enc(fs[k + 1..])
  {
    assert fs[k..][1..] == fs[k + 1..];
  }

  lemma Regroup3(a: seq<Byte>, x: Byte, y: Byte, b: seq<Byte>)
    ensures a + ([x] + ([y] + b)) == a + [x, y] + b
  {
  }

  lemma Second65(fs: seq<Flag>, k: nat, reg: nat, val: nat, a: nat, n: nat)
    requires ZeroSplit(fs, k, reg, val, a, 65) && a != 65 && a < 16384 && 4 <= n <= 5
    ensures var w := LitZeros(fs, k, a, 65, val); Wrong(LitMerge(w, Pos(fs, Back(k)), |w|, n), fs, reg, val)
  {
    if MergesBack(fs, k, a, val) {
      MergedBack(fs, k, reg, val, n);
    } else if k + 1 == |fs| {
      Second65Last(fs, k, reg, val, a, n);
    } else {
      Second65Val(fs, k, reg, val, a, n);
    }
  }

  // The whole add.

  const SCANLEN: nat := 5

  /** No part of the split run of zeros is 65 long, and among the flags that the merge loop looks at none are merged. */
  ghost predicate ZerosOk(fs: seq<Flag>, k: nat, a: nat, val: nat)
    requires k < |fs| && a < fs[k].count
  {
    a != 65 && fs[k].count - 1 - a != 65 && !Fires(Replaced(fs, k, Split(fs[k], a, val)), Back(k), SCANLEN)
  }

  lemma ZerosExact(fs: seq<Flag>, k: nat, reg: nat, val: nat, a: nat, b: nat)
    requires ZeroSplit(fs, k, reg, val, a, b) && a < fs[k].count <= 16384
    ensures var w := LitZeros(fs, k, a, b, val);
      Wrong(LitMerge(w, Pos(fs, Back(k)), |w|, SCANLEN), fs, reg, val) <==> !ZerosOk(fs, k, a, val)
  {
    if a == 65 {
      First65(fs, k, reg, val, b, SCANLEN);
    } else if b == 65 {
      Second65(fs, k, reg, val, a, SCANLEN);
    } else {
      ZeroClean(fs, k, reg, val, a, b, SCANLEN);
    }
  }

  /**
   When add_sparse as written raises the register: the run is a VAL that is large enough, or a single one that is not
   just one below the new value, or a run of zeros, but not a single ZERO, that splits cleanly.
   */
  ghost predicate LiteralOk(fs: seq<Flag>, k: nat, reg: nat, val: nat)
    requires Holds(fs, k, reg)
  {
    match fs[k]
    case Val(stored, n) => stored >= val || (n == 1 && stored + 1 != val)
    case Zero(n) => n > 1 && ZerosOk(fs, k, reg - RegPos(fs, k), val)
    case XZero(_) => ZerosOk(fs, k, reg - RegPos(fs, k), val)
  }

  /** A well-formed list whose runs of zeros are apart, and its bytes. */
  ghost predicate Encodes(out: seq<Byte>, gs: seq<Flag>) {
    var all := AllFit(gs) && Separated(gs) && out == Enc(gs);
    all
  }

  /** The flags that an add which raises the register leaves. */
  ghost function FlagsAfter(fs: seq<Flag>, k: nat, reg: nat, val: nat): seq<Flag>
    requires Holds(fs, k, reg)
  {
    if fs[k].Val? then (if fs[k].value >= val then fs else Replaced(fs, k, [Val(val, 1)]))
    else Replaced(fs, k, Split(fs[k], reg - RegPos(fs, k), val))
  }

  /** The merge loop. */
  method MergeAsWritten(w0: seq<Byte>, p0: nat) returns (w: seq<Byte>)
    ensures w == LitMerge(w0, p0, |w0|, SCANLEN)
  {
    w := w0;
    var p: nat, end: nat, scanlen: nat := p0, |w0|, SCANLEN;
    while p < end && scanlen > 0
      invariant LitMerge(w, p, end, scanlen) == LitMerge(w0, p0, end, SCANLEN)
      decreases scanlen
    {
      scanlen := scanlen - 1;
      if IsZero(ByteAt(w, p)) {
        p := p + 1;
      } else if !IsVal(ByteAt(w, p)) {
        p := p + 2;
      } else if p + 1 < end && Joins(w[p], ByteAt(w, p + 1)) {
        w := JoinAt(w, p);
      } else {
        p := p + 1;
      }
    }
  }

  /** The general case on a VAL run. */
  method SplitValAsWritten(bs: seq<Byte>, reg: nat, val: nat, prev: int, curr: nat, next: nat, pval: nat, first: nat, second: nat,
                           ghost fs: seq<Flag>, ghost k: nat)
    returns (out: seq<Byte>)
    requires Holds(fs, k, reg) && AtFlag(bs, curr, fs, k) && next == Pos(fs, k + 1) && prev == PrevPos(AsWritten, fs, k)
    requires fs[k] == Val(pval, first + 1 + second) && first + second > 0 && first == reg - RegPos(fs, k)
    requires pval + 1 < val <= MAX_VALUE
    ensures Separated(fs) ==> Wrong(out, fs, reg, val)
  {
    var w := PlaceVal(bs, reg, val, curr, next, pval, first, second, fs, k);
    out := MergeAsWritten(w, if prev >= 0 then prev else 0);
    if Separated(fs) {
      ValWrong(fs, k, reg, val, Replaced(fs, k, LitParts(fs[k], first, val)));
    }
  }

  method PlaceVal(bs: seq<Byte>, ghost reg: nat, val: nat, curr: nat, next: nat, pval: nat, first: nat, second: nat,
                  ghost fs: seq<Flag>, ghost k: nat)
    returns (w: seq<Byte>)
    requires Holds(fs, k, reg) && AtFlag(bs, curr, fs, k) && next == Pos(fs, k + 1)
    requires fs[k] == Val(pval, first + 1 + second) && first + second > 0 && first == reg - RegPos(fs, k)
    requires pval + 1 < val <= MAX_VALUE
    ensures Separated(fs) ==> var hs := Replaced(fs, k, LitParts(fs[k], first, val)); LitSplit(fs, k, reg, val, hs) && w == Enc(hs)
  {
    assert Fits(fs[k]);
    var tmp := SplitVal(AsWritten, pval, first, second, val);
    Spliced(bs, fs, k, LitParts(fs[k], first, val));
    w := bs[..curr] + tmp + bs[next..];
  }

  lemma ValWrong(fs: seq<Flag>, k: nat, reg: nat, val: nat, hs: seq<Flag>)
    requires LitSplit(fs, k, reg, val, hs)
    ensures var p := PrevPos(AsWritten, fs, k);
      Wrong(LitMerge(Enc(hs), if p >= 0 then p else 0, |Enc(hs)|, SCANLEN), fs, reg, val)
  {
    if k == 0 {
      LitSplitFlags(fs, k, reg, val, hs);
      assert hs[..0] == [];
      WrongAligned(fs, k, reg, val, hs, SCANLEN);
    } else {
      SamePlace(fs, k, reg, val, hs);
      if fs[k - 1].XZero? {
        WrongInside(fs, k, reg, val, hs, Pos(fs, k) - 1, SCANLEN);
      } else {
        WrongAligned(fs, k, reg, val, hs, SCANLEN);
      }
    }
  }

  lemma SamePlace(fs: seq<Flag>, k: nat, reg: nat, val: nat, hs: seq<Flag>)
    requires LitSplit(fs, k, reg, val, hs) && k > 0
    ensures k < |hs| && hs[k - 1] == fs[k - 1] && Pos(hs, k) == Pos(fs, k) && Pos(hs, k - 1) == Pos(fs, k - 1)
    ensures Pos(fs, k) - 1 == Pos(fs, k - 1) + if fs[k - 1].XZero? then 1 else 0
  {
    LitSplitFlags(fs, k, reg, val, hs);
    SamePrev(hs, fs, k);
    PosStep(fs, k - 1);
    assert Fits(fs[k - 1]);
    FirstByte(fs[k - 1]);
  }

  /** The general case on a run of zeros. */
  method SplitZerosAsWritten(bs: seq<Byte>, reg: nat, val: nat, prev: int, curr: nat, next: nat, first: nat, second: nat,
                             ghost fs: seq<Flag>, ghost k: nat)
    returns (out: seq<Byte>)
    requires Holds(fs, k, reg) && AtFlag(bs, curr, fs, k) && next == Pos(fs, k + 1) && prev == PrevPos(AsWritten, fs, k)
    requires !fs[k].Val? && fs[k].count == first + 1 + second && first == reg - RegPos(fs, k) && 1 <= val <= MAX_VALUE
    ensures Separated(fs) ==> (Wrong(out, fs, reg, val) <==> !ZerosOk(fs, k, first, val))
    ensures Separated(fs) && ZerosOk(fs, k, first, val) ==> Encodes(out, Replaced(fs, k, Split(fs[k], first, val)))
  {
    assert Fits(fs[k]);
    var tmp := SplitZeros(AsWritten, first, second, val);
    CutBytes(bs, fs, k);
    var w, p := bs[..curr] + tmp + bs[next..], if prev >= 0 then prev else 0;
    out := MergeAsWritten(w, p);
    if Separated(fs) {
      BackPos(fs, k, p);
      ZerosExact(fs, k, reg, val, first, second);
      if ZerosOk(fs, k, first, val) {
        CleanResult(fs, k, reg, val, first, second);
      }
    }
  }

  /** A run of zeros that splits cleanly leaves the flags that are meant to be there. */
  lemma CleanResult(fs: seq<Flag>, k: nat, reg: nat, val: nat, a: nat, b: nat)
    requires ZeroSplit(fs, k, reg, val, a, b) && a < fs[k].count <= 16384 && ZerosOk(fs, k, a, val)
    ensures var w := LitZeros(fs, k, a, b, val);
      Encodes(LitMerge(w, Pos(fs, Back(k)), |w|, SCANLEN), Replaced(fs, k, Split(fs[k], a, val)))
  {
    var hs := Replaced(fs, k, Split(fs[k], a, val));
    CleanBytes(fs, k, a, b, val);
    assert hs[..Back(k)] == fs[..Back(k)];
    NoFire(hs, Back(k), SCANLEN);
    SplitSeparated(fs[k], a, val);
    ReplacedSeparated(fs, k, Split(fs[k], a, val));
  }

  lemma BackPos(fs: seq<Flag>, k: nat, p: nat)
    requires AllFit(fs) && Separated(fs) && k < |fs| && !fs[k].Val?
    requires p == if k == 0 then 0 else Pos(fs, k) - 1
    ensures p == Pos(fs, Back(k))
  {
    if k > 0 {
      PrevIsVal(fs, k);
    } else {
      assert fs[..0] == [];
    }
  }

  lemma CutBytes(bs: seq<Byte>, fs: seq<Flag>, k: nat)
    requires AllFit(fs) && bs == Enc(fs) && k < |fs|
    ensures Pos(fs, k) <= Pos(fs, k + 1) <= |bs| && bs[..Pos(fs, k)] == Enc(fs[..k]) && bs[Pos(fs, k + 1)..] == Enc(fs[k + 1..])
  {
    CutAt(fs, k);
    PosStep(fs, k);
  }

  lemma InPlaceExact(fs: seq<Flag>, k: nat, reg: nat, val: nat, gs: seq<Flag>)
    requires Splits(fs, k, reg, val) && fs[k].count == 1 && !fs[k].XZero? && AllFit(gs)
    requires gs == Replaced(fs, k, [Val(val, if fs[k].Zero? then 2 else 1)])
    ensures Wrong(Enc(gs), fs, reg, val) <==> fs[k].Zero?
  {
    ParseEnc(gs);
    RaisedIs(fs, k, reg, val);
    if fs[k].Zero? {
      VecOne(Val(val, 2));
      ReplacedLength(fs, k, [Val(val, 2)]);
    } else {
      OverwriteVec(fs, k, reg, val);
    }
  }

  /**
   add_sparse as written, below its conversion guard: on a list in which runs of zeros are apart the vector is the one
   intended exactly when the run that holds the register allows it.
   */
  method AddAsWritten(bs: seq<Byte>, reg: nat, val: nat, ghost fs: seq<Flag>) returns (out: seq<Byte>, ret: nat)
    requires AllFit(fs) && bs == Enc(fs) && reg < |Vec(fs)| && 1 <= val <= MAX_VALUE
    ensures Holds(fs, RunIndex(fs, reg), reg)
    ensures Separated(fs) ==> (Vec(Parse(out)) == Raised(fs, reg, val) <==> LiteralOk(fs, RunIndex(fs, reg), reg, val))
    ensures LiteralOk(fs, RunIndex(fs, reg), reg, val) ==> ret == if Vec(fs)[reg] < val then 1 else 0
    ensures Separated(fs) && LiteralOk(fs, RunIndex(fs, reg), reg, val) ==> Encodes(out, FlagsAfter(fs, RunIndex(fs, reg), reg, val))
  {
    var prev, curr, next, start, end;
    ghost var k;
    prev, curr, next, start, end, k := Locate(AsWritten, bs, reg, fs);
    RunIndexUnique(fs, k, reg);
    VecAt(fs, k, reg);
    ReadAt(bs, fs, k);
    var flag := bs[curr];
    if IsVal(flag) && ValValue(flag) >= val - 1 {
      ParseEnc(fs);
      return bs, 0;
    }
    ret := 1;
    if (IsVal(flag) && ValCnt(flag) == 1) || (IsZero(flag) && ZeroCnt(flag) == 1) {
      ghost var gs;
      out, gs := AddInPlace(AsWritten, bs, val, curr, fs, k);
      if Separated(fs) {
        InPlaceExact(fs, k, reg, val, gs);
        ReplacedSeparated(fs, k, [Val(val, if fs[k].Zero? then 2 else 1)]);
      }
    } else if IsVal(flag) {
      out := SplitValAsWritten(bs, reg, val, prev, curr, next, ValValue(flag), reg - start, end - reg, fs, k);
    } else {
      out := SplitZerosAsWritten(bs, reg, val, prev, curr, next, reg - start, end - reg, fs, k);
    }
  }

  /** The very first add fails if it is to register 65. */
  lemma LiteralAddFails(val: nat)
    requires 1 <= val <= MAX_VALUE
    ensures var fs := [XZero(16384)];
      AllFit(fs) && Separated(fs) && |Vec(fs)| == 16384 && Holds(fs, 0, 65) && !LiteralOk(fs, 0, 65, val)
  {
    var fs := [XZero(16384)];
    VecOne(fs[0]);
    assert fs[..0] == [];
  }

  /** The first add to a string from hll_init, if it is to register 65, leaves other registers than it should. */
  method FirstAdd(val: nat) returns (out: seq<Byte>)
    requires 1 <= val <= MAX_VALUE
    ensures Vec(Parse(out)) != Raised([XZero(16384)], 65, val)
  {
    ghost var fs := [XZero(16384)];
    LiteralAddFails(val);
    ParseEnc(fs);
    var ret;
    out, ret := AddAsWritten([127, 255], 65, val, fs);
  }

  /** The first add, if it is to register 2: two zeros, the value, and the other zeros. */
  method AddToTwo() returns (out: seq<Byte>)
    ensures out == Enc([Zero(2), Val(1, 1), XZero(16381)])
  {
    ghost var fs := [XZero(16384)];
    SplitsAtTwo();
    var ret;
    out, ret := AddAsWritten([127, 255], 2, 1, fs);
  }

  lemma SplitsAtTwo()
    ensures var fs := [XZero(16384)];
      AllFit(fs) && Separated(fs) && Enc(fs) == [127, 255] && |Vec(fs)| == 16384 && Holds(fs, 0, 2) && LiteralOk(fs, 0, 2, 1) &&
      FlagsAfter(fs, 0, 2, 1) == [Zero(2), Val(1, 1), XZero(16381)]
  {
    var fs, gs := [XZero(16384)], [Zero(2), Val(1, 1), XZero(16381)];
    VecOne(fs[0]);
    EncOne(fs[0]);
    assert fs[..0] == [] && RegPos(fs, 0) == 0;
    assert Split(fs[0], 2, 1) == gs && Replaced(fs, 0, gs) == gs;
    assert !Mergeable(gs[0], gs[1]) && !Mergeable(gs[1], gs[2]);
  }
}
