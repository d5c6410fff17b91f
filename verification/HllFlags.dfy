/** The run-length flags of hyperloglog.cpp's sparse encoding and the register vectors they stand for. */
module HllFlags {
  import opened Bytes
  import opened Seqs

  const MAX_VALUE: nat := 32

  /** One flag: a run of up to 4 equal values, up to 64 zeros, or up to 16384 zeros. */
  datatype Flag = Val(value: nat, count: nat) | Zero(count: nat) | XZero(count: nat)

  predicate Fits(f: Flag) {
    match f
    case Val(v, n) => 1 <= v <= MAX_VALUE && 1 <= n <= 4
    case Zero(n) => 1 <= n <= 64
    case XZero(n) => 1 <= n <= 16384
  }

  ghost predicate AllFit(fs: seq<Flag>) { forall i :: 0 <= i < |fs| ==> Fits(fs[i]) }

  /** No two runs of zeros side by side: the shape of every list that starts as one XZERO. */
  ghost predicate Separated(fs: seq<Flag>) {
    forall i {:trigger fs[i]} :: 0 <= i < |fs| - 1 ==> fs[i].Val? || fs[i + 1].Val?
  }

  // The decoders.

  predicate IsVal(flag: Byte) { flag >= 128 }

  predicate IsZero(flag: Byte) { flag < 64 }

  function ValValue(flag: Byte): nat { flag % 128 / 4 + 1 }

  function ValCnt(flag: Byte): nat { flag % 128 % 4 + 1 }

  function ZeroCnt(flag: Byte): nat { flag + 1 }

  /** xzero_cnt: bit 6 of the first byte is the tag. */
  function XZeroCnt(msb: Byte, lsb: Byte): nat { (msb - msb / 64 % 2 * 64) * 256 + lsb + 1 }

  // The encoding.

  function ValByte(v: nat, n: nat): Byte
    requires 1 <= v <= MAX_VALUE && 1 <= n <= 4
  {
    128 + (v - 1) * 4 + (n - 1)
  }

  function EncFlag(f: Flag): (b: seq<Byte>)
    requires Fits(f)
    ensures 1 <= |b| <= 2
  {
    match f
    case Val(v, n) => [ValByte(v, n)]
    case Zero(n) => [n - 1]
    case XZero(n) => [64 + (n - 1) / 256, (n - 1) % 256]
  }

  /** The bits of the flags: 1vvvvvcc, 00cccccc and 01cccccc cccccccc, each number one less than it stands for. */
  lemma FlagBits(f: Flag)
    requires Fits(f)
    ensures var b := EncFlag(f);
      match f
      case Val(v, n) => |b| == 1 && b[0] / 128 == 1 && b[0] / 4 % 32 == v - 1 && b[0] % 4 == n - 1
      case Zero(n) => |b| == 1 && b[0] / 64 == 0 && b[0] % 64 == n - 1
      case XZero(n) => |b| == 2 && b[0] / 64 == 1 && (b[0] as int) % 64 * 256 + (b[1] as int) == n - 1
  {
  }

  lemma ValDecodes(v: nat, n: nat)
    requires 1 <= v <= MAX_VALUE && 1 <= n <= 4
    ensures IsVal(ValByte(v, n)) && !IsZero(ValByte(v, n)) && ValValue(ValByte(v, n)) == v && ValCnt(ValByte(v, n)) == n
  {
  }

  lemma XZeroDecodes(n: nat)
    requires 1 <= n <= 16384
    ensures var b := EncFlag(XZero(n)); !IsVal(b[0]) && !IsZero(b[0]) && XZeroCnt(b[0], b[1]) == n
  {
  }

  function Enc(fs: seq<Flag>): (b: seq<Byte>)
    requires AllFit(fs)
  {
    if fs == [] then [] else EncFlag(fs[0]) + Enc(fs[1..])
  }

  /** The first flag of a byte string and its length in bytes; a cut-off XZERO has no meaning. */
  function Head(bs: seq<Byte>): (f: Flag)
    requires bs != []
    requires !IsVal(bs[0]) && !IsZero(bs[0]) ==> |bs| > 1
  {
    if IsVal(bs[0]) then Val(ValValue(bs[0]), ValCnt(bs[0]))
    else if IsZero(bs[0]) then Zero(ZeroCnt(bs[0]))
    else XZero(XZeroCnt(bs[0], bs[1]))
  }

  /** Reading flags until the bytes end. */
  ghost function Parse(bs: seq<Byte>): (fs: seq<Flag>) {
    if bs == [] then []
    else if IsVal(bs[0]) || IsZero(bs[0]) then [Head(bs)] + Parse(bs[1..])
    else if |bs| == 1 then []
    else [Head(bs)] + Parse(bs[2..])
  }

  lemma HeadDecodes(f: Flag, rest: seq<Byte>)
    requires Fits(f)
    ensures var bs := EncFlag(f) + rest;
      (!IsVal(bs[0]) && !IsZero(bs[0]) <==> f.XZero?) && Head(bs) == f && |EncFlag(f)| == if f.XZero? then 2 else 1
  {
    match f
    case Val(v, n) => ValDecodes(v, n);
    case Zero(n) =>
    case XZero(n) => XZeroDecodes(n);
  }

  lemma ParseStep(f: Flag, rest: seq<Byte>)
    requires Fits(f)
    ensures Parse(EncFlag(f) + rest) == [f] + Parse(rest)
  {
    HeadDecodes(f, rest);
    assert (EncFlag(f) + rest)[|EncFlag(f)|..] == rest;
  }

  /** Decoding undoes encoding. */
  lemma {:induction false} ParseEnc(fs: seq<Flag>)
    requires AllFit(fs)
    ensures Parse(Enc(fs)) == fs
  {
    if fs != [] {
      ParseStep(fs[0], Enc(fs[1..]));
      ParseEnc(fs[1..]);
      assert [fs[0]] + fs[1..] == fs;
    }
  }

  lemma ValEncodes(flag: Byte)
    requires IsVal(flag)
    ensures 1 <= ValValue(flag) <= MAX_VALUE && 1 <= ValCnt(flag) <= 4 && ValByte(ValValue(flag), ValCnt(flag)) == flag
  {
  }

  lemma XZeroEncodes(msb: Byte, lsb: Byte)
    requires !IsVal(msb) && !IsZero(msb)
    ensures 1 <= XZeroCnt(msb, lsb) <= 16384 && EncFlag(XZero(XZeroCnt(msb, lsb))) == [msb, lsb]
  {
    assert XZeroCnt(msb, lsb) - 1 == (msb - 64) * 256 + lsb;
  }

  lemma HeadFits(bs: seq<Byte>)
    requires bs != []
    requires !IsVal(bs[0]) && !IsZero(bs[0]) ==> |bs| > 1
    ensures Fits(Head(bs)) && EncFlag(Head(bs)) == bs[..if IsVal(bs[0]) || IsZero(bs[0]) then 1 else 2]
  {
    if IsVal(bs[0]) {
      ValEncodes(bs[0]);
    } else if !IsZero(bs[0]) {
      XZeroEncodes(bs[0], bs[1]);
    }
  }

  lemma TwoParts(bs: seq<Byte>, n: nat)
    requires n <= |bs|
    ensures bs[..n] + bs[n..] == bs && (n < |bs| ==> bs[..n] + bs[n..][..|bs| - n - 1] == bs[..|bs| - 1])
  {
  }

  /** Every parsed flag can be encoded again, and encoding undoes decoding unless the last XZERO is cut off. */
  lemma {:induction false} EncParse(bs: seq<Byte>)
    ensures AllFit(Parse(bs))
    ensures Enc(Parse(bs)) == bs || (bs != [] && 64 <= bs[|bs| - 1] < 128 && Enc(Parse(bs)) == bs[..|bs| - 1])
  {
    if bs != [] && (IsVal(bs[0]) || IsZero(bs[0]) || |bs| > 1) {
      HeadFits(bs);
      var n := if IsVal(bs[0]) || IsZero(bs[0]) then 1 else 2;
      EncParse(bs[n..]);
      EncCons(Head(bs), Parse(bs[n..]));
      TwoParts(bs, n);
    }
  }

  lemma EncCons(f: Flag, fs: seq<Flag>)
    requires Fits(f) && AllFit(fs)
    ensures AllFit([f] + fs) && Enc([f] + fs) == EncFlag(f) + Enc(fs)
  {
    assert ([f] + fs)[1..] == fs;
  }

  lemma {:induction false} EncConcat(a: seq<Flag>, b: seq<Flag>)
    requires AllFit(a) && AllFit(b)
    ensures AllFit(a + b) && Enc(a + b) == Enc(a) + Enc(b)
  {
    if a == [] {
      Nil(b);
      Nil(Enc(b));
    } else {
      EncConcat(a[1..], b);
      Cons(a, b);
      EncCons(a[0], a[1..] + b);
      Assoc(EncFlag(a[0]), Enc(a[1..]), Enc(b));
    }
  }

  // The vector.

  ghost function Rep(v: nat, n: nat): (r: seq<nat>)
    ensures |r| == n && forall i :: 0 <= i < n ==> r[i] == v
  {
    seq(n, _ => v)
  }

  function ValueOf(f: Flag): nat { if f.Val? then f.value else 0 }

  /** The registers a list of flags stands for. */
  ghost function Vec(fs: seq<Flag>): seq<nat> {
    if fs == [] then [] else Rep(ValueOf(fs[0]), fs[0].count) + Vec(fs[1..])
  }

  lemma {:induction false} VecConcat(a: seq<Flag>, b: seq<Flag>)
    ensures Vec(a + b) == Vec(a) + Vec(b)
  {
    if a == [] {
      Nil(b);
      Nil(Vec(b));
    } else {
      VecConcat(a[1..], b);
      Cons(a, b);
      Assoc(Rep(ValueOf(a[0]), a[0].count), Vec(a[1..]), Vec(b));
    }
  }

  lemma VecOne(f: Flag)
    ensures Vec([f]) == Rep(ValueOf(f), f.count)
  {
    assert [f][1..] == [];
    Nil(Rep(ValueOf(f), f.count));
  }

  lemma EncOne(f: Flag)
    requires Fits(f)
    ensures AllFit([f]) && Enc([f]) == EncFlag(f)
  {
    assert [f][1..] == [];
    Nil(EncFlag(f));
  }

  /** The flag list cut at flag k: bytes and registers before, of and after it. */
  lemma CutAt(fs: seq<Flag>, k: nat)
    requires AllFit(fs) && k < |fs|
    ensures AllFit(fs[..k]) && AllFit(fs[k + 1..])
    ensures Enc(fs) == Enc(fs[..k]) + EncFlag(fs[k]) + Enc(fs[k + 1..])
    ensures Vec(fs) == Vec(fs[..k]) + Rep(ValueOf(fs[k]), fs[k].count) + Vec(fs[k + 1..])
  {
    PrefixStep(fs, k);
    Around(fs, k);
    EncConcat(fs[..k + 1], fs[k + 1..]);
    VecConcat(fs[..k + 1], fs[k + 1..]);
  }

  /** One flag further. */
  lemma PrefixStep(fs: seq<Flag>, k: nat)
    requires AllFit(fs) && k < |fs|
    ensures AllFit(fs[..k]) && AllFit(fs[..k + 1])
    ensures Enc(fs[..k + 1]) == Enc(fs[..k]) + EncFlag(fs[k])
    ensures Vec(fs[..k + 1]) == Vec(fs[..k]) + Rep(ValueOf(fs[k]), fs[k].count)
  {
    Around(fs, k);
    EncOne(fs[k]);
    EncConcat(fs[..k], [fs[k]]);
    VecConcat(fs[..k], [fs[k]]);
    VecOne(fs[k]);
  }

  /** What a reader finds at the byte position of flag k. */
  lemma ReadAt(bs: seq<Byte>, fs: seq<Flag>, k: nat)
    requires AllFit(fs) && k < |fs| && bs == Enc(fs)
    ensures AllFit(fs[..k])
    ensures var p, f := |Enc(fs[..k])|, fs[k];
      p + |EncFlag(f)| <= |bs| && bs[..p] == Enc(fs[..k]) &&
      bs[p] == EncFlag(f)[0] && (f.XZero? ==> p + 1 < |bs| && bs[p + 1] == EncFlag(f)[1])
    ensures var p, f := |Enc(fs[..k])|, fs[k];
      match f
      case Val(v, n) => IsVal(bs[p]) && !IsZero(bs[p]) && ValValue(bs[p]) == v && ValCnt(bs[p]) == n
      case Zero(n) => !IsVal(bs[p]) && IsZero(bs[p]) && ZeroCnt(bs[p]) == n
      case XZero(n) => !IsVal(bs[p]) && !IsZero(bs[p]) && XZeroCnt(bs[p], bs[p + 1]) == n
  {
    CutAt(fs, k);
    HeadDecodes(fs[k], []);
    assert EncFlag(fs[k]) + [] == EncFlag(fs[k]);
  }

  lemma OneByte(f: Flag)
    requires Fits(f) && !f.XZero?
    ensures EncFlag(f) == [EncFlag(f)[0]]
  {
  }
}
