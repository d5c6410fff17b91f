/** Whole runs of hll_add as it is written, from hll_init on, as long as the string stays sparse. */
module HllLiteralRun {
  import opened Bytes
  import opened HllFlags
  import opened HllSparse
  import opened HllLiteral
  import HllDense
  import HllHash
  import Hll
  import HllRun

  /** The flags of the string that hll_init makes. */
  ghost function Start(): seq<Flag> { [XZero(16384)] }

  /** hll_add goes below add_sparse's conversion guard. */
  ghost predicate StaysSparse(fs: seq<Flag>, hash: nat) {
    AllFit(fs) && HllHash.Rank(hash) <= MAX_VALUE && HllDense.HEADER + |Enc(fs)| + 5 <= Hll.SPARSE_MAX
  }

  /** The run that holds the hash's register allows its add. */
  ghost predicate Fine(fs: seq<Flag>, hash: nat) {
    HllHash.RegNo(hash) < |Vec(fs)| &&
    var reg := HllHash.RegNo(hash);
    Holds(fs, RunIndex(fs, reg), reg) && LiteralOk(fs, RunIndex(fs, reg), reg, HllHash.Rank(hash))
  }

  ghost function Step(fs: seq<Flag>, hash: nat): seq<Flag> {
    var reg := HllHash.RegNo(hash);
    if Fine(fs, hash) then FlagsAfter(fs, RunIndex(fs, reg), reg, HllHash.Rank(hash)) else fs
  }

  /** The flags after a run of adds that were all fine. */
  ghost function Flags(hashes: seq<nat>): seq<Flag> {
    if hashes == [] then Start() else Step(Flags(hashes[..|hashes| - 1]), hashes[|hashes| - 1])
  }

  /** Every add of the run is fine. */
  ghost predicate AllFine(hashes: seq<nat>) {
    hashes == [] || (AllFine(hashes[..|hashes| - 1]) && Fine(Flags(hashes[..|hashes| - 1]), hashes[|hashes| - 1]))
  }

  ghost predicate AllSparse(hashes: seq<nat>) {
    forall i :: 0 <= i < |hashes| ==> hashes[i] < HllHash.TWO64 && StaysSparse(Flags(hashes[..i]), hashes[i])
  }

  ghost function Ops(hashes: seq<nat>): (ops: seq<HllRun.Op>)
    ensures |ops| == |hashes|
  {
    seq(|hashes|, i requires 0 <= i < |hashes| => HllRun.Add(hashes[i]))
  }

  /** The plain vector of registers after those adds. */
  ghost function Plain(hashes: seq<nat>): seq<nat> { HllRun.After(Rep(0, 16384), Ops(hashes)) }

  lemma PlainStep(hashes: seq<nat>)
    requires hashes != [] && HllHash.RegNo(hashes[|hashes| - 1]) < 16384
    ensures var before, h := hashes[..|hashes| - 1], hashes[|hashes| - 1];
      var r, reg := Plain(before), HllHash.RegNo(h);
      |r| == 16384 && Plain(hashes) == r[reg := Max(r[reg], HllHash.Rank(h))]
  {
    var n := |hashes| - 1;
    assert Ops(hashes)[..n] == Ops(hashes[..n]);
  }

  lemma {:induction false} FinePrefix(hashes: seq<nat>, i: nat)
    requires AllFine(hashes) && i <= |hashes|
    ensures AllFine(hashes[..i])
  {
    if i < |hashes| {
      var before := hashes[..|hashes| - 1];
      FinePrefix(before, i);
      assert before[..i] == hashes[..i];
    } else {
      assert hashes[..i] == hashes;
    }
  }

  lemma Unfold(hashes: seq<nat>, i: nat)
    requires i < |hashes|
    ensures Flags(hashes[..i + 1]) == Step(Flags(hashes[..i]), hashes[i])
    ensures AllFine(hashes[..i + 1]) <==> AllFine(hashes[..i]) && Fine(Flags(hashes[..i]), hashes[i])
    ensures HllHash.RegNo(hashes[i]) < 16384 ==>
      var r, reg := Plain(hashes[..i]), HllHash.RegNo(hashes[i]);
      |r| == 16384 && Plain(hashes[..i + 1]) == r[reg := Max(r[reg], HllHash.Rank(hashes[i]))]
  {
    var hs := hashes[..i + 1];
    assert hs[..i] == hashes[..i] && hs[i] == hashes[i];
    if HllHash.RegNo(hashes[i]) < 16384 {
      PlainStep(hs);
    }
  }

  /** Where a run stands: the string holds the flags of the adds so far, and those the registers. */
  ghost predicate OnTrack(bs: seq<Byte>, hashes: seq<nat>) {
    var all := Encodes(bs, Flags(hashes)) && Vec(Flags(hashes)) == Plain(hashes) && |Plain(hashes)| == 16384;
    all
  }

  lemma OnTrackFirst()
    ensures OnTrack([127, 255], [])
  {
    VecOne(XZero(16384));
    EncOne(XZero(16384));
  }

  /** One add; the registers are right after it exactly when it is fine, and then the run goes on. */
  method AddNext(bs: seq<Byte>, hashes: seq<nat>, i: nat) returns (out: seq<Byte>)
    requires i < |hashes| && OnTrack(bs, hashes[..i]) && AllFine(hashes[..i])
    requires hashes[i] < HllHash.TWO64 && StaysSparse(Flags(hashes[..i]), hashes[i])
    ensures Vec(Parse(out)) == Plain(hashes[..i + 1]) <==> AllFine(hashes[..i + 1])
    ensures AllFine(hashes[..i + 1]) ==> OnTrack(out, hashes[..i + 1])
  {
    ghost var fs := Flags(hashes[..i]);
    var reg, val := HllHash.Split(hashes[i]);
    var ret;
    out, ret := AddAsWritten(bs, reg, val, fs);
    Unfold(hashes, i);
    if Fine(fs, hashes[i]) {
      ParseEnc(Flags(hashes[..i + 1]));
    }
  }

  /** After each add the registers are those of the plain vector exactly when all adds so far were fine. */
  ghost predicate Exact(hashes: seq<nat>, outs: seq<seq<Byte>>) {
    |outs| <= |hashes| && forall i :: 0 <= i < |outs| ==> (Right(hashes, i, outs[i]) <==> AllFineUpTo(hashes, i))
  }

  ghost predicate Right(hashes: seq<nat>, i: nat, out: seq<Byte>)
    requires i < |hashes|
  {
    Vec(Parse(out)) == Plain(hashes[..i + 1])
  }

  ghost predicate AllFineUpTo(hashes: seq<nat>, i: nat)
    requires i < |hashes|
  {
    AllFine(hashes[..i + 1])
  }

  lemma ExactMore(hashes: seq<nat>, outs: seq<seq<Byte>>, out: seq<Byte>)
    requires Exact(hashes, outs) && |outs| < |hashes|
    requires Right(hashes, |outs|, out) <==> AllFineUpTo(hashes, |outs|)
    ensures Exact(hashes, outs + [out])
  {
  }

  lemma FineBefore(hashes: seq<nat>, i: nat)
    requires i < |hashes| && AllFine(hashes[..|hashes| - 1])
    ensures AllFine(hashes[..i])
  {
    FinePrefix(hashes[..|hashes| - 1], i);
    assert hashes[..|hashes| - 1][..i] == hashes[..i];
  }

  /**
   A run of hll_add as written, up to the first add that is not fine: until then the registers are those of the plain
   vector, and that one makes them wrong.
   */
  method Replay(hashes: seq<nat>) returns (outs: seq<seq<Byte>>)
    requires AllSparse(hashes) && (hashes != [] ==> AllFine(hashes[..|hashes| - 1]))
    ensures |outs| == |hashes| && Exact(hashes, outs)
  {
    outs := [];
    var bs := [127, 255];
    OnTrackFirst();
    assert hashes[..0] == [];
    for i := 0 to |hashes|
      invariant |outs| == i && Exact(hashes, outs) && (AllFine(hashes[..i]) ==> OnTrack(bs, hashes[..i]))
    {
      FineBefore(hashes, i);
      bs := AddNext(bs, hashes, i);
      ExactMore(hashes, outs, bs);
      outs := outs + [bs];
    }
  }
}
