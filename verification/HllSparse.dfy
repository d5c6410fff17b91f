/** Adding to the sparse encoding: locate the run, split it, put the pieces in its place, merge neighbours. */
module HllSparse {
  import opened Bytes
  import opened Seqs
  import opened HllFlags

  /** The lines of add_sparse as they are, or as the encoding needs them. */
  datatype Rule = AsWritten | Intended

  /** Where flag k starts, in bytes and in registers. */
  ghost function Pos(fs: seq<Flag>, k: nat): nat
    requires AllFit(fs) && k <= |fs|
  {
    |Enc(fs[..k])|
  }

  ghost function RegPos(fs: seq<Flag>, k: nat): nat
    requires k <= |fs|
  {
    |Vec(fs[..k])|
  }

  lemma PosStep(fs: seq<Flag>, k: nat)
    requires AllFit(fs) && k < |fs|
    ensures Pos(fs, k + 1) == Pos(fs, k) + |EncFlag(fs[k])| && RegPos(fs, k + 1) == RegPos(fs, k) + fs[k].count
    ensures Pos(fs, k + 1) <= |Enc(fs)|
  {
    PrefixStep(fs, k);
    CutAt(fs, k);
  }

  lemma PosEnd(fs: seq<Flag>)
    requires AllFit(fs)
    ensures Pos(fs, |fs|) == |Enc(fs)| && RegPos(fs, |fs|) == |Vec(fs)|
  {
    assert fs[..|fs|] == fs;
  }

  /** The index of the flag that holds register `reg`. */
  ghost function RunIndex(fs: seq<Flag>, reg: nat): (k: nat)
    requires reg < |Vec(fs)|
    ensures k < |fs|
  {
    if reg < fs[0].count then 0 else 1 + RunIndex(fs[1..], reg - fs[0].count)
  }

  lemma {:induction false} RunIndexUnique(fs: seq<Flag>, k: nat, reg: nat)
    requires k < |fs| && RegPos(fs, k) <= reg < RegPos(fs, k) + fs[k].count
    ensures reg < |Vec(fs)| && RunIndex(fs, reg) == k
  {
    if k == 0 {
      assert fs[..0] == [];
    } else {
      assert fs[..k][1..] == fs[1..][..k - 1];
      RunIndexUnique(fs[1..], k - 1, reg - fs[0].count);
    }
  }

  /** The branches on the flag at `fn`: how many registers it covers, and its last byte. */
  method FlagCount(bs: seq<Byte>, fn: nat, ghost fs: seq<Flag>, ghost k: nat) returns (cnt: nat, last: nat)
    requires AllFit(fs) && bs == Enc(fs) && k < |fs| && fn == Pos(fs, k)
    ensures cnt == fs[k].count && last + 1 == Pos(fs, k + 1) <= |bs| && RegPos(fs, k + 1) == RegPos(fs, k) + cnt
  {
    ReadAt(bs, fs, k);
    PosStep(fs, k);
    var flag := bs[fn];
    last := fn;
    if IsVal(flag) {
      cnt := ValCnt(flag);
    } else if IsZero(flag) {
      cnt := ZeroCnt(flag);
    } else {
      last := fn + 1;
      cnt := XZeroCnt(flag, bs[last]);
    }
  }

  lemma NotAtEnd(fs: seq<Flag>, k: nat)
    requires AllFit(fs) && k <= |fs|
    ensures k < |fs| <==> Pos(fs, k) < |Enc(fs)|
    ensures k == |fs| ==> RegPos(fs, k) == |Vec(fs)|
  {
    PosEnd(fs);
    if k < |fs| {
      PosStep(fs, k);
    }
  }

  /** Where the merge will start: the flag before the run, as intended its first byte, as written its last. */
  ghost function PrevPos(rule: Rule, fs: seq<Flag>, k: nat): int
    requires AllFit(fs) && k <= |fs|
  {
    if k == 0 then -1 else if rule.Intended? then Pos(fs, k - 1) else Pos(fs, k) - 1
  }

  /** The scan for the flag that holds `reg`, from byte `curr` up to `next`, and its registers; `prev` is -1 if there is none. */
  method Locate(rule: Rule, bs: seq<Byte>, reg: nat, ghost fs: seq<Flag>)
    returns (prev: int, curr: nat, next: nat, start: nat, end: nat, ghost k: nat)
    requires AllFit(fs) && bs == Enc(fs) && reg < |Vec(fs)|
    ensures k < |fs| && curr == Pos(fs, k) && next == Pos(fs, k + 1) <= |bs|
    ensures start == RegPos(fs, k) <= reg <= end && end + 1 == start + fs[k].count
    ensures prev == PrevPos(rule, fs, k)
  {
    var fn, idx := 0, 0;
    prev, curr, next, start, end, k := -1, 0, 0, 0, 0, 0;
    assert fs[..0] == [];
    while fn < |bs|
      invariant k <= |fs| && fn == Pos(fs, k) && idx == RegPos(fs, k) <= reg
      invariant prev == PrevPos(rule, fs, k)
      decreases |fs| - k
    {
      NotAtEnd(fs, k);
      var cnt, last := FlagCount(bs, fn, fs, k);
      curr, start := fn, idx;
      idx, fn := idx + cnt, last + 1;
      if idx > reg {
        end, next := idx - 1, fn;
        return;
      }
      prev, k := match rule case Intended => curr case AsWritten => last, k + 1;
    }
    NotAtEnd(fs, k);
    assert false;
  }

  // Splitting.

  /** A run of zeros takes one byte up to 64 and two beyond. */
  function ZeroRun(n: nat): Flag { if n <= 64 then Zero(n) else XZero(n) }

  /** At most one flag. */
  ghost function Piece(f: Flag): seq<Flag> {
    if f.count == 0 then [] else [f]
  }

  /** The new value between two parts of a run. */
  ghost function Three(a: Flag, v: nat, b: Flag): seq<Flag> {
    Piece(a) + [Val(v, 1)] + Piece(b)
  }

  /** n registers of a run. */
  ghost function Part(f: Flag, n: nat): Flag {
    if f.Val? then Val(f.value, n) else ZeroRun(n)
  }

  /** A run with its register `off` set to v. */
  ghost function Split(f: Flag, off: nat, v: nat): seq<Flag>
    requires off < f.count
  {
    Three(Part(f, off), v, Part(f, f.count - 1 - off))
  }

  lemma PieceVec(f: Flag)
    ensures Vec(Piece(f)) == Rep(ValueOf(f), f.count)
  {
    VecOne(f);
  }

  lemma ThreePieces(a: Flag, v: nat, b: Flag)
    ensures Vec(Three(a, v, b)) == Rep(ValueOf(a), a.count) + [v] + Rep(ValueOf(b), b.count)
  {
    PieceVec(a);
    PieceVec(b);
    VecOne(Val(v, 1));
    VecConcat(Piece(a), [Val(v, 1)]);
    VecConcat(Piece(a) + [Val(v, 1)], Piece(b));
  }

  lemma SplitVec(f: Flag, off: nat, v: nat)
    requires off < f.count
    ensures Vec(Split(f, off, v)) == Rep(ValueOf(f), f.count)[off := v]
  {
    ThreePieces(Part(f, off), v, Part(f, f.count - 1 - off));
    PutOne(ValueOf(f), off, v, f.count - 1 - off);
  }

  lemma PutOne(x: nat, a: nat, v: nat, b: nat)
    ensures Rep(x, a) + [v] + Rep(x, b) == Rep(x, a + 1 + b)[a := v]
  {
  }

  lemma PartFits(f: Flag, n: nat)
    requires Fits(f) && n < f.count
    ensures n == 0 || Fits(Part(f, n))
    ensures Part(f, n).count == n
  {
  }

  lemma SplitFits(f: Flag, off: nat, v: nat)
    requires Fits(f) && off < f.count && 1 <= v <= MAX_VALUE
    ensures AllFit(Split(f, off, v)) && |Split(f, off, v)| <= 3
  {
    PartFits(f, off);
    PartFits(f, f.count - 1 - off);
    EncThree(Part(f, off), v, Part(f, f.count - 1 - off));
  }

  lemma PieceEnc(f: Flag)
    requires f.count == 0 || Fits(f)
    ensures AllFit(Piece(f)) && Enc(Piece(f)) == if f.count == 0 then [] else EncFlag(f)
  {
    if f.count > 0 {
      EncOne(f);
    }
  }

  lemma EncThree(a: Flag, v: nat, b: Flag)
    requires (a.count == 0 || Fits(a)) && (b.count == 0 || Fits(b)) && 1 <= v <= MAX_VALUE
    ensures AllFit(Three(a, v, b))
    ensures Enc(Three(a, v, b)) ==
      (if a.count == 0 then [] else EncFlag(a)) + [ValByte(v, 1)] + (if b.count == 0 then [] else EncFlag(b))
  {
    var m := Val(v, 1);
    PieceEnc(a);
    EncOne(m);
    PieceEnc(b);
    EncConcat(Piece(a), [m]);
    EncConcat(Piece(a) + [m], Piece(b));
  }

  /** (1 << 7) | (v << 2) | n, clamped to a byte. */
  function OrVal(v: nat, n: nat): Byte
    requires v < 64 && n <= 4
  {
    128 + (if v < 32 then v else v - 32) * 4 + (if n < 4 then n else if v % 2 == 0 then 4 else 0)
  }

  /** The value that the parts of a VAL run get: as written, pval is not reduced before it is put in. */
  function PartValue(rule: Rule, pval: nat): nat { if rule.Intended? then pval else pval + 1 }

  function PartByte(rule: Rule, pval: nat, n: nat): (b: Byte)
    requires 1 <= pval <= PartValue(rule, pval) <= MAX_VALUE && 1 <= n <= 4
    ensures b == ValByte(PartValue(rule, pval), n)
  {
    match rule case Intended => ValByte(pval, n) case AsWritten => OrVal(pval, n - 1)
  }

  /** Filling the tmp array from a VAL run: its first part, the new value, its second part. */
  method SplitVal(rule: Rule, pval: nat, first: nat, second: nat, val: nat) returns (tmp: seq<Byte>)
    requires 1 <= pval <= PartValue(rule, pval) <= MAX_VALUE && 1 <= val <= MAX_VALUE && first + second <= 3
    ensures var p := PartValue(rule, pval);
      AllFit(Three(Val(p, first), val, Val(p, second))) && tmp == Enc(Three(Val(p, first), val, Val(p, second)))
    ensures |tmp| <= 3
  {
    tmp := [];
    if first != 0 {
      tmp := tmp + [PartByte(rule, pval, first)];
    }
    tmp := tmp + [ValByte(val, 1)];
    if second != 0 {
      tmp := tmp + [PartByte(rule, pval, second)];
    }
    EncThree(Val(PartValue(rule, pval), first), val, Val(PartValue(rule, pval), second));
  }

  /** The bytes of a run of zeros; `limit` is the largest count, less one, that is written as one byte. */
  function ZeroBytes(n: nat, limit: nat): (b: seq<Byte>)
    requires 1 <= n <= 16384 && limit < 256
  {
    if n - 1 > limit then [64 + (n - 1) / 256, (n - 1) % 256] else [n - 1]
  }

  /** No bytes for no zeros; as written, 65 zeros are taken to fit into one byte. */
  function ZeroPart(rule: Rule, n: nat): (b: seq<Byte>)
    requires n <= 16384
  {
    if n == 0 then [] else ZeroBytes(n, match rule case Intended => 63 case AsWritten => 64)
  }

  lemma ZeroPartIs(rule: Rule, n: nat)
    requires n <= 16384 && (rule.Intended? || n != 65)
    ensures n == 0 || Fits(ZeroRun(n))
    ensures ZeroPart(rule, n) == if n == 0 then [] else EncFlag(ZeroRun(n))
  {
  }

  /** Filling the tmp array from a ZERO or XZERO run. */
  method SplitZeros(rule: Rule, first: nat, second: nat, val: nat) returns (tmp: seq<Byte>)
    requires 1 <= val <= MAX_VALUE && first + second < 16384
    ensures tmp == ZeroPart(rule, first) + [ValByte(val, 1)] + ZeroPart(rule, second)
  {
    tmp := [];
    if first != 0 {
      tmp := tmp + ZeroPart(rule, first);
    }
    tmp := tmp + [128 + (val - 1) * 4];
    if second != 0 {
      tmp := tmp + ZeroPart(rule, second);
    }
  }

  lemma ZerosEnc(rule: Rule, first: nat, second: nat, val: nat)
    requires 1 <= val <= MAX_VALUE && first + second < 16384 && (rule.Intended? || (first != 65 && second != 65))
    ensures AllFit(Three(ZeroRun(first), val, ZeroRun(second)))
    ensures Enc(Three(ZeroRun(first), val, ZeroRun(second))) == ZeroPart(rule, first) + [ValByte(val, 1)] + ZeroPart(rule, second)
  {
    ZeroPartIs(rule, first);
    ZeroPartIs(rule, second);
    EncThree(ZeroRun(first), val, ZeroRun(second));
  }

  lemma PartLength(f: Flag, n: nat)
    requires Fits(f) && n < f.count && !f.Val?
    ensures |ZeroPart(Intended, n)| <= if f.Zero? then 1 else 2
  {
  }

  /** The bytes of the run with the register set, as intended. */
  method SplitRun(isVal: bool, pval: nat, start: nat, reg: nat, end: nat, val: nat, ghost f: Flag) returns (tmp: seq<Byte>)
    requires Fits(f) && start <= reg <= end && end + 1 == start + f.count && 1 <= val <= MAX_VALUE
    requires isVal == f.Val? && (f.Val? ==> pval == f.value)
    ensures AllFit(Split(f, reg - start, val)) && tmp == Enc(Split(f, reg - start, val))
    ensures |tmp| <= |EncFlag(f)| + 3
  {
    if isVal {
      tmp := SplitVal(Intended, pval, reg - start, end - reg, val);
    } else {
      tmp := SplitZeros(Intended, reg - start, end - reg, val);
      ZerosEnc(Intended, reg - start, end - reg, val);
      ZerosLength(f, reg - start, end - reg, val);
    }
  }

  lemma ZerosLength(f: Flag, first: nat, second: nat, val: nat)
    requires Fits(f) && !f.Val? && first + second < f.count && 1 <= val <= MAX_VALUE
    ensures |ZeroPart(Intended, first) + [ValByte(val, 1)] + ZeroPart(Intended, second)| <= |EncFlag(f)| + 3
  {
    PartLength(f, first);
    PartLength(f, second);
  }

  // Putting the pieces in place.

  /** Flag k replaced by `ts`. */
  ghost function Replaced(fs: seq<Flag>, k: nat, ts: seq<Flag>): seq<Flag>
    requires k < |fs|
  {
    fs[..k] + ts + fs[k + 1..]
  }

  /** The bytes after flag k is replaced by `ts`. */
  lemma Spliced(bs: seq<Byte>, fs: seq<Flag>, k: nat, ts: seq<Flag>)
    requires AllFit(fs) && AllFit(ts) && k < |fs| && bs == Enc(fs)
    ensures Pos(fs, k) <= Pos(fs, k + 1) <= |bs|
    ensures var gs := Replaced(fs, k, ts);
      AllFit(gs) && Enc(gs) == bs[..Pos(fs, k)] + Enc(ts) + bs[Pos(fs, k + 1)..]
  {
    CutAt(fs, k);
    PosStep(fs, k);
    var a, b := fs[..k], fs[k + 1..];
    assert bs[..Pos(fs, k)] == Enc(a);
    assert bs[Pos(fs, k + 1)..] == Enc(b);
    EncConcat(a, ts);
    EncConcat(a + ts, b);
  }

  /** Replacing the run by one with register `reg` set updates the vector at `reg`. */
  lemma SplicedVec(fs: seq<Flag>, k: nat, ts: seq<Flag>, reg: nat, v: nat)
    requires AllFit(fs) && k < |fs| && RegPos(fs, k) <= reg < RegPos(fs, k) + fs[k].count
    requires Vec(ts) == Rep(ValueOf(fs[k]), fs[k].count)[reg - RegPos(fs, k) := v]
    ensures reg < |Vec(fs)| && Vec(fs)[reg] == ValueOf(fs[k])
    ensures Vec(Replaced(fs, k, ts)) == Vec(fs)[reg := v]
  {
    var a, m, b := Vec(fs[..k]), Rep(ValueOf(fs[k]), fs[k].count), Vec(fs[k + 1..]);
    assert Vec(fs) == a + m + b by { CutAt(fs, k); }
    UpdateMiddle(a, m, b, reg - |a|, v);
    assert Vec(fs[..k] + ts + fs[k + 1..]) == a + Vec(ts) + b by {
      VecConcat(fs[..k], ts);
      VecConcat(fs[..k] + ts, fs[k + 1..]);
    }
  }

  lemma UpdateMiddle(a: seq<nat>, m: seq<nat>, b: seq<nat>, off: nat, v: nat)
    requires off < |m|
    ensures (a + m + b)[|a| + off] == m[off]
    ensures a + m[off := v] + b == (a + m + b)[|a| + off := v]
  {
  }

  // Merging neighbours.

  predicate Mergeable(f: Flag, g: Flag) {
    f.Val? && g.Val? && f.value == g.value && f.count + g.count <= 4
  }

  /** No two neighbouring VAL flags could be one. */
  ghost predicate Compact(fs: seq<Flag>) {
    forall i {:trigger fs[i]} :: 0 <= i < |fs| - 1 ==> !Mergeable(fs[i], fs[i + 1])
  }

  /** Only the pairs starting at flags j up to j + n may still be mergeable. */
  ghost predicate CompactBut(fs: seq<Flag>, j: nat, n: nat) {
    forall i {:trigger fs[i]} :: 0 <= i < |fs| - 1 && !(j <= i < j + n) ==> !Mergeable(fs[i], fs[i + 1])
  }

  /** Flags j and j + 1 made one. */
  ghost function Joined(fs: seq<Flag>, j: nat): seq<Flag>
    requires j + 1 < |fs|
  {
    fs[..j] + [Val(ValueOf(fs[j]), fs[j].count + fs[j + 1].count)] + fs[j + 2..]
  }

  lemma JoinedVec(fs: seq<Flag>, j: nat)
    requires j + 1 < |fs| && Mergeable(fs[j], fs[j + 1])
    ensures Vec(Joined(fs, j)) == Vec(fs)
  {
    Around2(fs, j);
    JoinParts(fs, Joined(fs, j), fs[..j], fs[j], fs[j + 1], fs[j + 2..]);
  }

  lemma JoinParts(fs: seq<Flag>, gs: seq<Flag>, a: seq<Flag>, f: Flag, g: Flag, b: seq<Flag>)
    requires Mergeable(f, g) && fs == a + [f] + [g] + b && gs == a + [Val(ValueOf(f), f.count + g.count)] + b
    ensures Vec(gs) == Vec(fs)
  {
    TwoRuns(a, f, g, b);
    JoinRuns(Vec(a), ValueOf(f), f.count, g.count);
    ThreeVec(a, Val(ValueOf(f), f.count + g.count), b);
  }

  lemma ThreeVec(a: seq<Flag>, f: Flag, b: seq<Flag>)
    ensures Vec(a + [f] + b) == Vec(a) + Rep(ValueOf(f), f.count) + Vec(b)
  {
    VecOne(f);
    VecConcat(a, [f]);
    VecConcat(a + [f], b);
  }

  lemma TwoRuns(a: seq<Flag>, f: Flag, g: Flag, b: seq<Flag>)
    ensures Vec(a + [f] + [g] + b) == Vec(a) + Rep(ValueOf(f), f.count) + Rep(ValueOf(g), g.count) + Vec(b)
  {
    VecOne(f);
    VecConcat(a, [f]);
    ThreeVec(a + [f], g, b);
  }

  lemma JoinRuns(a: seq<nat>, v: nat, n: nat, n': nat)
    ensures a + Rep(v, n) + Rep(v, n') == a + Rep(v, n + n')
  {
  }

  lemma JoinedCompact(fs: seq<Flag>, j: nat, n: nat)
    requires j + 1 < |fs| && Mergeable(fs[j], fs[j + 1]) && n > 0 && AllFit(fs)
    requires CompactBut(fs, j, n)
    ensures CompactBut(Joined(fs, j), j, n - 1)
  {
    var gs := Joined(fs, j);
    forall i | 0 <= i < |gs| - 1 && !(j <= i < j + n - 1)
      ensures !Mergeable(gs[i], gs[i + 1])
    {
      if i + 1 < j {
        assert fs[i] == gs[i] && fs[i + 1] == gs[i + 1];
      } else if i + 1 == j {
        assert fs[i] == gs[i];
      } else {
        assert fs[i + 1] == gs[i] || i == j;
        assert fs[i + 2] == gs[i + 1];
        assert !Mergeable(fs[i + 1], fs[i + 2]);
      }
    }
  }

  lemma JoinedSeparated(fs: seq<Flag>, j: nat)
    requires j + 1 < |fs| && Mergeable(fs[j], fs[j + 1]) && Separated(fs)
    ensures Separated(Joined(fs, j))
  {
    var gs := Joined(fs, j);
    forall i | 0 <= i < |gs| - 1
      ensures gs[i].Val? || gs[i + 1].Val?
    {
      if i + 1 < j {
        assert gs[i] == fs[i] && gs[i + 1] == fs[i + 1];
      } else if i > j {
        assert gs[i] == fs[i + 1] && gs[i + 1] == fs[i + 2];
      }
    }
  }

  lemma TwoFlags(fs: seq<Flag>, j: nat)
    requires AllFit(fs) && j + 1 < |fs|
    ensures AllFit(fs[..j]) && AllFit(fs[j + 2..])
    ensures Enc(fs) == Enc(fs[..j]) + EncFlag(fs[j]) + EncFlag(fs[j + 1]) + Enc(fs[j + 2..])
  {
    PrefixStep(fs, j);
    CutAt(fs, j + 1);
  }

  lemma JoinedEnc(fs: seq<Flag>, j: nat)
    requires AllFit(fs) && j + 1 < |fs| && Mergeable(fs[j], fs[j + 1])
    ensures AllFit(Joined(fs, j)) && AllFit(fs[..j]) && AllFit(fs[j + 2..]) && Joined(fs, j)[..j] == fs[..j]
    ensures Enc(Joined(fs, j)) ==
      Enc(fs[..j]) + [ValByte(fs[j].value, fs[j].count + fs[j + 1].count)] + Enc(fs[j + 2..])
  {
    var m := Val(fs[j].value, fs[j].count + fs[j + 1].count);
    PieceEnc(m);
    EncConcat(fs[..j], [m]);
    EncConcat(fs[..j] + [m], fs[j + 2..]);
  }

  lemma JoinedBytes(bs: seq<Byte>, fs: seq<Flag>, j: nat)
    requires AllFit(fs) && j + 1 < |fs| && Mergeable(fs[j], fs[j + 1]) && bs == Enc(fs)
    ensures AllFit(Joined(fs, j))
    ensures var p := Pos(fs, j);
      p + 1 < |bs| && Pos(Joined(fs, j), j) == p &&
      Enc(Joined(fs, j)) == bs[..p] + [ValByte(fs[j].value, fs[j].count + fs[j + 1].count)] + bs[p + 2..]
  {
    JoinedEnc(fs, j);
    TwoFlags(fs, j);
    CutAround(Enc(fs[..j]), EncFlag(fs[j])[0], EncFlag(fs[j + 1])[0], Enc(fs[j + 2..]), bs);
  }

  lemma CutAround(a: seq<Byte>, x: Byte, y: Byte, b: seq<Byte>, bs: seq<Byte>)
    requires bs == a + [x] + [y] + b
    ensures |a| + 2 <= |bs| && bs[..|a|] == a && bs[|a| + 2..] == b
  {
  }

  /** Byte position p of the flag bytes is the start of flag j, or their end. */
  ghost predicate AtFlag(bs: seq<Byte>, p: nat, fs: seq<Flag>, j: nat) {
    AllFit(fs) && bs == Enc(fs) && j <= |fs| && p == Pos(fs, j)
  }

  /** The merge loop as intended: five steps from `p0`, each of which joins two flags or goes one flag on. */
  method MergeFrom(bs0: seq<Byte>, p0: nat, ghost fs0: seq<Flag>, ghost j0: nat) returns (bs: seq<Byte>, ghost fs: seq<Flag>)
    requires AtFlag(bs0, p0, fs0, j0)
    ensures AllFit(fs) && bs == Enc(fs) && Vec(fs) == Vec(fs0) && |bs| <= |bs0|
    ensures CompactBut(fs0, j0, 5) ==> Compact(fs)
    ensures Separated(fs0) ==> Separated(fs)
  {
    bs, fs := bs0, fs0;
    var p: nat, scanlen: nat := p0, 5;
    ghost var j: nat := j0;
    while p < |bs| && scanlen > 0
      invariant AtFlag(bs, p, fs, j)
      invariant Vec(fs) == Vec(fs0) && |bs| <= |bs0|
      invariant CompactBut(fs0, j0, 5) ==> CompactBut(fs, j, scanlen)
      invariant Separated(fs0) ==> Separated(fs)
      decreases scanlen
    {
      p, bs, fs, j := MergeStep(p, bs, fs, j, scanlen);
      scanlen := scanlen - 1;
    }
    NotAtEnd(fs, j);
  }

  /** One step: a ZERO or XZERO is passed over, a VAL is joined with the next flag if possible. */
  method MergeStep(p0: nat, bs0: seq<Byte>, ghost fs0: seq<Flag>, ghost j0: nat, ghost n: nat)
    returns (p: nat, bs: seq<Byte>, ghost fs: seq<Flag>, ghost j: nat)
    requires AtFlag(bs0, p0, fs0, j0) && p0 < |bs0| && n > 0
    ensures AtFlag(bs, p, fs, j)
    ensures Vec(fs) == Vec(fs0) && |bs| <= |bs0|
    ensures CompactBut(fs0, j0, n) ==> CompactBut(fs, j, n - 1)
    ensures Separated(fs0) ==> Separated(fs)
  {
    FlagAt(bs0, p0, fs0, j0);
    bs, fs, j := bs0, fs0, j0 + 1;
    if IsZero(bs[p0]) {
      p := p0 + 1;
    } else if !IsVal(bs[p0]) {
      p := p0 + 2;
    } else {
      p, bs, fs, j := MergeVal(p0, bs0, fs0, j0, n);
    }
  }

  /** The kind of flag at p, and where the next one is. */
  lemma FlagAt(bs: seq<Byte>, p: nat, fs: seq<Flag>, j: nat)
    requires AtFlag(bs, p, fs, j) && p < |bs|
    ensures j < |fs| && (IsZero(bs[p]) <==> fs[j].Zero?) && (IsVal(bs[p]) <==> fs[j].Val?)
    ensures AtFlag(bs, p + if fs[j].XZero? then 2 else 1, fs, j + 1)
  {
    NotAtEnd(fs, j);
    ReadAt(bs, fs, j);
    PosStep(fs, j);
  }

  method MergeVal(p0: nat, bs0: seq<Byte>, ghost fs0: seq<Flag>, ghost j0: nat, ghost n: nat)
    returns (p: nat, bs: seq<Byte>, ghost fs: seq<Flag>, ghost j: nat)
    requires AtFlag(bs0, p0, fs0, j0) && p0 < |bs0| && n > 0 && j0 < |fs0| && fs0[j0].Val?
    requires AtFlag(bs0, p0 + 1, fs0, j0 + 1)
    ensures AtFlag(bs, p, fs, j)
    ensures Vec(fs) == Vec(fs0) && |bs| <= |bs0|
    ensures CompactBut(fs0, j0, n) ==> CompactBut(fs, j, n - 1)
    ensures Separated(fs0) ==> Separated(fs)
  {
    var merge := CanMerge(p0, bs0, fs0, j0);
    if merge {
      JoinedVec(fs0, j0);
      if CompactBut(fs0, j0, n) {
        JoinedCompact(fs0, j0, n);
      }
      if Separated(fs0) {
        JoinedSeparated(fs0, j0);
      }
      bs := MergePair(p0, bs0, fs0, j0);
      p, fs, j := p0, Joined(fs0, j0), j0;
    } else {
      p, bs, fs, j := p0 + 1, bs0, fs0, j0 + 1;
    }
  }

  /** Two VAL bytes of one value whose counts fit into one. */
  predicate Joins(x: Byte, y: Byte) {
    IsVal(x) && IsVal(y) && ValValue(x) == ValValue(y) && ValCnt(x) + ValCnt(y) <= 4
  }

  lemma FirstByte(f: Flag)
    requires Fits(f)
    ensures var b := EncFlag(f)[0]; (f.Val? <==> IsVal(b)) && (f.Zero? <==> IsZero(b)) && |EncFlag(f)| == if f.XZero? then 2 else 1
    ensures var b := EncFlag(f)[0]; f.Val? ==> ValValue(b) == f.value && ValCnt(b) == f.count
  {
    Nil(EncFlag(f));
    HeadDecodes(f, []);
  }

  lemma JoinsIs(f: Flag, g: Flag)
    requires Fits(f) && Fits(g)
    ensures Joins(EncFlag(f)[0], EncFlag(g)[0]) <==> Mergeable(f, g)
  {
    FirstByte(f);
    FirstByte(g);
  }

  /** What is at the byte after a VAL flag. */
  lemma JoinsAt(bs: seq<Byte>, p: nat, fs: seq<Flag>, j: nat)
    requires AtFlag(bs, p, fs, j) && j < |fs| && fs[j].Val?
    ensures p < |bs| && (p + 1 < |bs| <==> j + 1 < |fs|)
    ensures j + 1 < |fs| ==> (Joins(bs[p], bs[p + 1]) <==> Mergeable(fs[j], fs[j + 1]))
  {
    ReadAt(bs, fs, j);
    PosStep(fs, j);
    NotAtEnd(fs, j + 1);
    if j + 1 < |fs| {
      ReadAt(bs, fs, j + 1);
      JoinsIs(fs[j], fs[j + 1]);
    }
  }

  /** The next flag is a VAL of the same value and the counts fit into one. */
  method CanMerge(p: nat, bs: seq<Byte>, ghost fs: seq<Flag>, ghost j: nat) returns (yes: bool)
    requires AtFlag(bs, p, fs, j) && j < |fs| && fs[j].Val?
    ensures yes <==> j + 1 < |fs| && Mergeable(fs[j], fs[j + 1])
  {
    JoinsAt(bs, p, fs, j);
    yes := p + 1 < |bs| && Joins(bs[p], bs[p + 1]);
  }

  lemma PairAt(bs: seq<Byte>, p: nat, fs: seq<Flag>, j: nat)
    requires AtFlag(bs, p, fs, j) && j + 1 < |fs| && fs[j].Val? && fs[j + 1].Val?
    ensures p + 1 < |bs| && ValValue(bs[p]) == fs[j].value && ValCnt(bs[p]) == fs[j].count && ValCnt(bs[p + 1]) == fs[j + 1].count
  {
    ReadAt(bs, fs, j);
    PosStep(fs, j);
    ReadAt(bs, fs, j + 1);
  }

  /** Two flags made one. */
  method MergePair(p: nat, bs0: seq<Byte>, ghost fs0: seq<Flag>, ghost j: nat) returns (bs: seq<Byte>)
    requires AtFlag(bs0, p, fs0, j) && j + 1 < |fs0| && Mergeable(fs0[j], fs0[j + 1])
    ensures AtFlag(bs, p, Joined(fs0, j), j) && |bs| < |bs0|
  {
    PairAt(bs0, p, fs0, j);
    JoinedBytes(bs0, fs0, j);
    var v, len := ValValue(bs0[p]), ValCnt(bs0[p]) + ValCnt(bs0[p + 1]);
    bs := bs0[..p] + [ValByte(v, len)] + bs0[p + 2..];
  }

  // The whole add.

  /** The pairs a splice can make mergeable lie between the flag before the pieces and the last piece. */
  lemma ReplacedCompact(fs: seq<Flag>, k: nat, ts: seq<Flag>)
    requires k < |fs| && |ts| <= 3 && Compact(fs)
    ensures CompactBut(Replaced(fs, k, ts), Back(k), 5)
  {
    var gs, j := Replaced(fs, k, ts), Back(k);
    forall i | 0 <= i < |gs| - 1 && !(j <= i < j + 5)
      ensures !Mergeable(gs[i], gs[i + 1])
    {
      if i < j {
        assert gs[i] == fs[i] && gs[i + 1] == fs[i + 1];
      } else {
        var d := 1 - |ts|;
        assert gs[i] == fs[i + d] && gs[i + 1] == fs[i + d + 1];
      }
    }
  }

  /** The pieces of a run separate what they come between no less than the run did. */
  lemma ReplacedSeparated(fs: seq<Flag>, k: nat, ts: seq<Flag>)
    requires k < |fs| && Separated(fs) && Separated(ts) && ts != []
    requires fs[k].Val? ==> ts[0].Val? && ts[|ts| - 1].Val?
    ensures Separated(Replaced(fs, k, ts))
  {
    var gs := Replaced(fs, k, ts);
    forall i | 0 <= i < |gs| - 1
      ensures gs[i].Val? || gs[i + 1].Val?
    {
      if i + 1 < k {
        assert gs[i] == fs[i] && gs[i + 1] == fs[i + 1];
      } else if i + 1 == k {
        assert gs[i] == fs[i] && gs[k] == ts[0];
      } else if i + 1 < k + |ts| {
        assert gs[i] == ts[i - k] && gs[i + 1] == ts[i + 1 - k];
      } else if i + 1 == k + |ts| {
        assert gs[i] == ts[|ts| - 1] && gs[i + 1] == fs[k + 1];
      } else {
        var d := 1 - |ts|;
        assert gs[i] == fs[i + d] && gs[i + 1] == fs[i + d + 1];
      }
    }
  }

  lemma SplitSeparated(f: Flag, off: nat, v: nat)
    requires off < f.count
    ensures var ts := Split(f, off, v); Separated(ts) && ts != [] && (f.Val? ==> ts[0].Val? && ts[|ts| - 1].Val?)
  {
  }

  /** A run of one register overwritten in place: bytes and registers. */
  lemma OverwriteBytes(bs: seq<Byte>, fs: seq<Flag>, k: nat, b: Byte, m: Flag)
    requires AllFit(fs) && bs == Enc(fs) && k < |fs| && |EncFlag(fs[k])| == 1 && Fits(m) && EncFlag(m) == [b]
    ensures AllFit(Replaced(fs, k, [m])) && Pos(fs, k) < |bs|
    ensures bs[Pos(fs, k) := b] == Enc(Replaced(fs, k, [m]))
  {
    PosStep(fs, k);
    PieceEnc(m);
    Spliced(bs, fs, k, [m]);
    PutAt(bs, Pos(fs, k), b);
  }

  lemma PutAt(bs: seq<Byte>, p: nat, b: Byte)
    requires p < |bs|
    ensures bs[p := b] == bs[..p] + [b] + bs[p + 1..]
  {
  }

  lemma OverwriteVec(fs: seq<Flag>, k: nat, reg: nat, val: nat)
    requires AllFit(fs) && k < |fs| && fs[k].count == 1 && RegPos(fs, k) == reg
    ensures reg < |Vec(fs)| && Vec(Replaced(fs, k, [Val(val, 1)])) == Vec(fs)[reg := val]
  {
    VecOne(Val(val, 1));
    SplicedVec(fs, k, [Val(val, 1)], reg, val);
  }

  /** *curr &= ~(31 << 2); *curr |= (val - 1) << 2 */
  function SetValue(flag: Byte, val: nat): Byte
    requires IsVal(flag) && 1 <= val <= MAX_VALUE
  {
    flag - flag / 4 % 32 * 4 + (val - 1) * 4
  }

  lemma SetValueIs(flag: Byte, val: nat)
    requires IsVal(flag) && 1 <= val <= MAX_VALUE && ValCnt(flag) == 1
    ensures SetValue(flag, val) == ValByte(val, 1)
  {
    assert flag == 128 + flag / 4 % 32 * 4;
  }

  /** `gs` is `fs` with register `reg` set to v. */
  ghost predicate SetTo(fs: seq<Flag>, gs: seq<Flag>, reg: nat, v: nat) {
    reg < |Vec(fs)| && Vec(gs) == Vec(fs)[reg := v]
  }

  /**
   The vector is the old one with register `reg` raised to `val`, the result is 1 exactly when that changes it, a run
   that had to be split leaves no neighbours to merge, and runs of zeros stay apart.
   */
  ghost predicate Added(fs: seq<Flag>, gs: seq<Flag>, reg: nat, val: nat, ret: nat) {
    var all :=
      reg < |Vec(fs)| && SetTo(fs, gs, reg, Max(Vec(fs)[reg], val)) &&
      ret == (if Vec(fs)[reg] < val then 1 else 0) &&
      (ret == 0 ==> gs == fs) &&
      (Compact(fs) && fs[RunIndex(fs, reg)].count > 1 ==> Compact(gs)) &&
      (Separated(fs) ==> Separated(gs));
    all
  }

  /** Flag k holds register `reg`. */
  ghost predicate Holds(fs: seq<Flag>, k: nat, reg: nat) {
    AllFit(fs) && k < |fs| && RegPos(fs, k) <= reg < RegPos(fs, k) + fs[k].count
  }

  lemma AddedKept(fs: seq<Flag>, reg: nat, val: nat, k: nat)
    requires Holds(fs, k, reg) && ValueOf(fs[k]) >= val
    ensures Added(fs, fs, reg, val, 0)
  {
    VecAt(fs, k, reg);
    RunIndexUnique(fs, k, reg);
  }

  lemma AddedSet(fs: seq<Flag>, gs: seq<Flag>, reg: nat, val: nat, k: nat)
    requires Holds(fs, k, reg) && ValueOf(fs[k]) < val && SetTo(fs, gs, reg, val)
    requires fs[k].count == 1 || (Compact(fs) ==> Compact(gs))
    requires Separated(fs) ==> Separated(gs)
    ensures Added(fs, gs, reg, val, 1)
  {
    VecAt(fs, k, reg);
    RunIndexUnique(fs, k, reg);
  }

  /** add_sparse below its conversion guard, as intended. */
  method AddRun(bs: seq<Byte>, reg: nat, val: nat, ghost fs: seq<Flag>)
    returns (out: seq<Byte>, ret: nat, ghost gs: seq<Flag>)
    requires AllFit(fs) && bs == Enc(fs) && reg < |Vec(fs)| && 1 <= val <= MAX_VALUE
    ensures Added(fs, gs, reg, val, ret) && AllFit(gs) && out == Enc(gs) && |out| <= |bs| + 3
  {
    var prev, curr, next, start, end;
    ghost var k;
    prev, curr, next, start, end, k := Locate(Intended, bs, reg, fs);
    ReadAt(bs, fs, k);
    var flag := bs[curr];
    if IsVal(flag) && ValValue(flag) >= val {
      AddedKept(fs, reg, val, k);
      out, ret, gs := bs, 0, fs;
      return;
    }
    if (IsVal(flag) && ValCnt(flag) == 1) || (IsZero(flag) && ZeroCnt(flag) == 1) {
      out, gs := AddInPlace(Intended, bs, val, curr, fs, k);
      OverwriteVec(fs, k, reg, val);
      if Separated(fs) {
        ReplacedSeparated(fs, k, [Val(val, 1)]);
      }
    } else {
      out, gs := AddSplit(bs, reg, val, prev, curr, next, start, end, fs, k);
    }
    AddedSet(fs, gs, reg, val, k);
    ret := 1;
  }

  lemma VecAt(fs: seq<Flag>, k: nat, reg: nat)
    requires AllFit(fs) && k < |fs| && RegPos(fs, k) <= reg < RegPos(fs, k) + fs[k].count
    ensures reg < |Vec(fs)| && Vec(fs)[reg] == ValueOf(fs[k])
  {
    CutAt(fs, k);
  }

  /** The count of the flag written over a single register: as written, over a ZERO, bit 0 makes it two. */
  function InPlaceCount(rule: Rule, flag: Byte): (n: nat)
    ensures 1 <= n <= 2
  {
    if rule.AsWritten? && !IsVal(flag) then 2 else 1
  }

  /** A VAL or ZERO flag with count 1 becomes a VAL flag. */
  method AddInPlace(rule: Rule, bs: seq<Byte>, val: nat, curr: nat, ghost fs: seq<Flag>, ghost k: nat)
    returns (out: seq<Byte>, ghost gs: seq<Flag>)
    requires AtFlag(bs, curr, fs, k) && k < |fs| && 1 <= val <= MAX_VALUE
    requires fs[k].count == 1 && !fs[k].XZero?
    ensures AllFit(gs) && out == Enc(gs) && |out| == |bs|
    ensures gs == Replaced(fs, k, [Val(val, if rule.AsWritten? && fs[k].Zero? then 2 else 1)])
  {
    ReadAt(bs, fs, k);
    ghost var m := Val(val, InPlaceCount(rule, bs[curr]));
    OverwriteBytes(bs, fs, k, ValByte(val, m.count), m);
    gs := Replaced(fs, k, [m]);
    if IsVal(bs[curr]) {
      SetValueIs(bs[curr], val);
      out := bs[curr := SetValue(bs[curr], val)];
    } else {
      out := bs[curr := 128 + (val - 1) * 4 + match rule case Intended => 0 case AsWritten => 1];
    }
  }

  /** Where the merge loop starts: the flag before the one that is replaced. */
  ghost function Back(k: nat): nat { if k == 0 then 0 else k - 1 }

  /** The flags after the pieces have been put in place. */
  lemma SplitPlaced(bs: seq<Byte>, fs: seq<Flag>, k: nat, ts: seq<Flag>)
    requires AllFit(fs) && bs == Enc(fs) && k < |fs| && AllFit(ts)
    ensures Pos(fs, k) <= Pos(fs, k + 1) <= |bs|
    ensures AtFlag(bs[..Pos(fs, k)] + Enc(ts) + bs[Pos(fs, k + 1)..], Pos(fs, Back(k)), Replaced(fs, k, ts), Back(k))
  {
    Spliced(bs, fs, k, ts);
    assert Replaced(fs, k, ts)[..Back(k)] == fs[..Back(k)];
  }

  lemma SplitMeans(fs: seq<Flag>, k: nat, reg: nat, val: nat)
    requires AllFit(fs) && k < |fs| && 1 <= val <= MAX_VALUE
    requires RegPos(fs, k) <= reg < RegPos(fs, k) + fs[k].count
    ensures var hs := Replaced(fs, k, Split(fs[k], reg - RegPos(fs, k), val));
      SetTo(fs, hs, reg, val) && (Compact(fs) ==> CompactBut(hs, Back(k), 5)) && (Separated(fs) ==> Separated(hs))
  {
    var off := reg - RegPos(fs, k);
    SplitFits(fs[k], off, val);
    SplitVec(fs[k], off, val);
    SplicedVec(fs, k, Split(fs[k], off, val), reg, val);
    if Compact(fs) {
      ReplacedCompact(fs, k, Split(fs[k], off, val));
    }
    if Separated(fs) {
      SplitSeparated(fs[k], off, val);
      ReplacedSeparated(fs, k, Split(fs[k], off, val));
    }
  }

  /** The general case. */
  method AddSplit(bs: seq<Byte>, reg: nat, val: nat, prev: int, curr: nat, next: nat, start: nat, end: nat,
                  ghost fs: seq<Flag>, ghost k: nat)
    returns (out: seq<Byte>, ghost gs: seq<Flag>)
    requires AtFlag(bs, curr, fs, k) && k < |fs| && next == Pos(fs, k + 1) && 1 <= val <= MAX_VALUE
    requires start == RegPos(fs, k) <= reg <= end && end + 1 == start + fs[k].count
    requires prev == PrevPos(Intended, fs, k)
    ensures AllFit(gs) && out == Enc(gs) && |out| <= |bs| + 3
    ensures SetTo(fs, gs, reg, val)
    ensures Compact(fs) ==> Compact(gs)
    ensures Separated(fs) ==> Separated(gs)
  {
    ReadAt(bs, fs, k);
    PosStep(fs, k);
    var tmp := SplitRun(IsVal(bs[curr]), ValValue(bs[curr]), start, reg, end, val, fs[k]);
    ghost var ts := Split(fs[k], reg - start, val);
    SplitPlaced(bs, fs, k, ts);
    SplitMeans(fs, k, reg, val);
    assert fs[..0] == [];
    out, gs := MergeFrom(bs[..curr] + tmp + bs[next..], if prev >= 0 then prev else 0, Replaced(fs, k, ts), Back(k));
  }

  /** A run of n zeros as written decodes to n zeros exactly when n is not 65. */
  lemma LiteralZeroLimit(n: nat)
    requires 1 <= n <= 16384
    ensures Vec(Parse(ZeroPart(AsWritten, n))) == Rep(0, n) <==> n != 65
  {
    if n != 65 {
      ZeroPartIs(AsWritten, n);
      EncOne(ZeroRun(n));
      ParseEnc([ZeroRun(n)]);
      VecOne(ZeroRun(n));
    }
  }
}
