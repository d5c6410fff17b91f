/** Whole runs of a HyperLogLog, and what its registers say about the values added. */
module HllRun {
  import opened Wrappers
  import opened Bytes
  import opened HllFlags
  import opened HllSparse
  import opened HllDense
  import opened HllEstimate
  import opened HllHash
  import opened Hll

  /** A call of hll_add, with the value's hash, or of hll_count. */
  datatype Op = Add(hash: nat) | Count

  ghost predicate Hashed(ops: seq<Op>) {
    forall i :: 0 <= i < |ops| && ops[i].Add? ==> ops[i].hash < TWO64
  }

  ghost function Next(r: seq<nat>, op: Op): (s: seq<nat>)
    ensures |s| == |r|
  {
    if op.Add? && RegNo(op.hash) < |r| then Raised(r, RegNo(op.hash), Rank(op.hash)) else r
  }

  /** A plain vector of registers updated by max. */
  ghost function After(r: seq<nat>, ops: seq<Op>): (s: seq<nat>)
    ensures |s| == |r|
  {
    if ops == [] then r else Next(After(r, ops[..|ops| - 1]), ops[|ops| - 1])
  }

  /** What a call answers: whether the vector changed, or the estimate. */
  ghost function Reply(r: seq<nat>, op: Op, est: Estimator): Option<nat> {
    if op.Count? then Answer(r, est) else Some(if Next(r, op) == r then 0 else 1)
  }

  /** A coherent string whose registers are `r`. */
  ghost predicate Shows(buf: seq<Byte>, est: Estimator, r: seq<nat>) {
    var ok := Coherent(buf, est) && RegsOf(buf) == r;
    ok
  }

  /** One call. */
  method Do(h: HyperLogLog, op: Op, est: Estimator, ghost r: seq<nat>) returns (reply: Option<nat>)
    requires Shows(h.buf, est, r) && (op.Add? ==> op.hash < TWO64)
    modifies h
    ensures Shows(h.buf, est, Next(r, op)) && reply == Reply(r, op, est)
  {
    if op.Count? {
      reply := h.Count(est);
    } else {
      var ret := DoAdd(h, op.hash, est, r);
      reply := Some(ret);
    }
  }

  method DoAdd(h: HyperLogLog, hash: nat, est: Estimator, ghost r: seq<nat>) returns (ret: nat)
    requires Shows(h.buf, est, r) && hash < TWO64
    modifies h
    ensures Shows(h.buf, est, Next(r, Add(hash))) && ret == if Next(r, Add(hash)) == r then 0 else 1
  {
    ghost var was := h.buf;
    ret := h.Add(hash);
    assert Coherent(was, est);
  }

  /** Each reply is the plain vector's at that point of the run. */
  ghost predicate Replied(r: seq<nat>, ops: seq<Op>, replies: seq<Option<nat>>, est: Estimator) {
    var all := |replies| <= |ops| && forall i :: 0 <= i < |replies| ==> replies[i] == Reply(After(r, ops[..i]), ops[i], est);
    all
  }

  lemma RepliedMore(r: seq<nat>, ops: seq<Op>, replies: seq<Option<nat>>, est: Estimator, reply: Option<nat>)
    requires Replied(r, ops, replies, est) && |replies| < |ops| && reply == Reply(After(r, ops[..|replies|]), ops[|replies|], est)
    ensures Replied(r, ops, replies + [reply], est)
  {
  }

  lemma AfterStep(r: seq<nat>, ops: seq<Op>, i: nat)
    requires i < |ops|
    ensures After(r, ops[..i + 1]) == Next(After(r, ops[..i]), ops[i])
  {
    assert ops[..i + 1][..i] == ops[..i];
  }

  /** Every run, through either encoding and whatever the cache holds, answers as the plain vector does. */
  method Replay(h: HyperLogLog, ops: seq<Op>, est: Estimator) returns (replies: seq<Option<nat>>)
    requires Coherent(h.buf, est) && Hashed(ops)
    modifies h
    ensures Coherent(h.buf, est) && RegsOf(h.buf) == After(old(RegsOf(h.buf)), ops)
    ensures |replies| == |ops|
    ensures Replied(old(RegsOf(h.buf)), ops, replies, est)
  {
    replies := [];
    ghost var r := RegsOf(h.buf);
    var i := 0;
    while i < |ops|
      invariant i <= |ops| && Shows(h.buf, est, After(r, ops[..i]))
      invariant |replies| == i && Replied(r, ops, replies, est)
    {
      AfterStep(r, ops, i);
      var reply := Do(h, ops[i], est, After(r, ops[..i]));
      RepliedMore(r, ops, replies, est, reply);
      replies, i := replies + [reply], i + 1;
    }
    assert ops[..|ops|] == ops;
  }

  // Runs over two strings, with merges.

  datatype Side = Left | Right

  function Other(s: Side): Side { if s.Left? then Right else Left }

  datatype Pair<T> = Pair(l: T, r: T) {
    function At(s: Side): T { if s.Left? then l else r }
  }

  /** A call on one of two strings, or a merge of the other one into it. */
  datatype Step = On(side: Side, op: Op) | Merge(side: Side)

  ghost predicate CoherentBoth(p: Pair<seq<Byte>>, est: Estimator) { Coherent(p.l, est) && Coherent(p.r, est) }

  ghost predicate BothDense(p: Pair<seq<Byte>>) { |p.l| > 4 && |p.r| > 4 && p.l[4] == DENSE && p.r[4] == DENSE }

  /**
   One step: the string called on replies and changes as a plain vector of registers does, a merge takes the larger
   registers and is refused unless both strings are dense, the other string stays, and both caches stay coherent.
   */
  ghost predicate Stepped(p: Pair<seq<Byte>>, st: Step, reply: Option<nat>, q: Pair<seq<Byte>>, est: Estimator) {
    CoherentBoth(p, est) && CoherentBoth(q, est) && q.At(Other(st.side)) == p.At(Other(st.side)) &&
    var r, r' := RegsOf(p.At(st.side)), RegsOf(q.At(st.side));
    match st
    case On(_, op) => r' == Next(r, op) && reply == Reply(r, op, est)
    case Merge(_) =>
      if BothDense(p) then r' == MaxAll(r, RegsOf(p.At(Other(st.side)))) && reply == Some(1) else q == p && reply == None
  }

  ghost predicate AllHashed(steps: seq<Step>) {
    forall i :: 0 <= i < |steps| && steps[i].On? && steps[i].op.Add? ==> steps[i].op.hash < TWO64
  }

  /** The two strings. */
  ghost function Both(h: HyperLogLog, g: HyperLogLog): Pair<seq<Byte>>
    reads h, g
  {
    Pair(h.buf, g.buf)
  }

  method Call(h: HyperLogLog, op: Op, est: Estimator) returns (reply: Option<nat>)
    requires Coherent(h.buf, est) && (op.Add? ==> op.hash < TWO64)
    modifies h
    ensures Coherent(h.buf, est) && RegsOf(h.buf) == Next(old(RegsOf(h.buf)), op) && reply == Reply(old(RegsOf(h.buf)), op, est)
  {
    reply := Do(h, op, est, RegsOf(h.buf));
  }

  /** The larger registers if both strings are dense, and nothing otherwise. */
  ghost predicate Merged(d: seq<Byte>, s: seq<Byte>, d': seq<Byte>, reply: Option<nat>, est: Estimator) {
    var merged := Coherent(d, est) && Coherent(s, est) && Coherent(d', est) &&
      if BothDense(Pair(d, s)) then RegsOf(d') == MaxAll(RegsOf(d), RegsOf(s)) && reply == Some(1) else d' == d && reply == None;
    merged
  }

  lemma NotMerged(d: seq<Byte>, s: seq<Byte>, est: Estimator)
    requires Coherent(d, est) && Coherent(s, est) && !BothDense(Pair(d, s))
    ensures Merged(d, s, d, None, est)
  {
  }

  method MergeInto(h: HyperLogLog, g: HyperLogLog, est: Estimator) returns (reply: Option<nat>)
    requires h != g && Coherent(h.buf, est) && Coherent(g.buf, est)
    modifies h
    ensures Merged(old(h.buf), g.buf, h.buf, reply, est)
  {
    if h.buf[4] != DENSE || g.buf[4] != DENSE {
      NotMerged(h.buf, g.buf, est);
      return None;
    }
    MergeBoth(h, g, est);
    return Some(1);
  }

  method MergeBoth(h: HyperLogLog, g: HyperLogLog, ghost est: Estimator)
    requires h != g && Coherent(h.buf, est) && Coherent(g.buf, est) && h.buf[4] == DENSE && g.buf[4] == DENSE
    modifies h
    ensures Merged(old(h.buf), g.buf, h.buf, Some(1), est)
  {
    h.Merge(g);
  }

  method TakeStep(h: HyperLogLog, g: HyperLogLog, st: Step, est: Estimator) returns (reply: Option<nat>)
    requires h != g && CoherentBoth(Both(h, g), est) && (st.On? && st.op.Add? ==> st.op.hash < TWO64)
    modifies h, g
    ensures Stepped(old(Both(h, g)), st, reply, Both(h, g), est)
  {
    match st
    case On(side, op) =>
      if side == Left {
        reply := Call(h, op, est);
      } else {
        reply := Call(g, op, est);
      }
    case Merge(side) =>
      if side == Left {
        reply := MergeInto(h, g, est);
      } else {
        reply := MergeInto(g, h, est);
      }
  }

  /** Every run of adds, counts and merges on two strings goes step by step as the plain vectors do. */
  method RunBoth(h: HyperLogLog, g: HyperLogLog, steps: seq<Step>, est: Estimator)
    returns (replies: seq<Option<nat>>, ghost trace: seq<Pair<seq<Byte>>>)
    requires h != g && CoherentBoth(Both(h, g), est) && AllHashed(steps)
    modifies h, g
    ensures |replies| == |steps| && |trace| == |steps| + 1 && trace[0] == old(Both(h, g)) && trace[|steps|] == Both(h, g)
    ensures forall i :: 0 <= i < |steps| ==> Stepped(trace[i], steps[i], replies[i], trace[i + 1], est)
  {
    replies, trace := [], [Both(h, g)];
    var i := 0;
    while i < |steps|
      invariant i <= |steps| && |replies| == i && CoherentBoth(Both(h, g), est)
      invariant |trace| == i + 1 && trace[0] == old(Both(h, g)) && trace[i] == Both(h, g)
      invariant forall j :: 0 <= j < i ==> Stepped(trace[j], steps[j], replies[j], trace[j + 1], est)
    {
      var reply := TakeStep(h, g, steps[i], est);
      replies, trace, i := replies + [reply], trace + [Both(h, g)], i + 1;
    }
  }

  // The vector depends on the set of hashes only.

  ghost function Hashes(ops: seq<Op>): set<nat> {
    set i | 0 <= i < |ops| && ops[i].Add? :: ops[i].hash
  }

  /** v is the largest rank among the hashes of register i, and 0 if there are none. */
  ghost predicate Largest(hs: set<nat>, i: nat, v: nat) {
    (forall h :: h in hs && RegNo(h) == i ==> Rank(h) <= v) &&
    (v == 0 || exists h :: h in hs && RegNo(h) == i && Rank(h) == v)
  }

  ghost function Zeros(): seq<nat> { Rep(0, REGISTERS) }

  lemma {:induction false} RegisterIsLargest(ops: seq<Op>, i: nat)
    requires i < REGISTERS
    ensures Largest(Hashes(ops), i, After(Zeros(), ops)[i])
  {
    if ops != [] {
      var a, op := ops[..|ops| - 1], ops[|ops| - 1];
      RegisterIsLargest(a, i);
      assert op == ops[|ops| - 1];
      HashesStep(ops);
      if op.Add? {
        LargestInsert(Hashes(a), op.hash, i, After(Zeros(), a)[i]);
      }
    }
  }

  lemma HashesStep(ops: seq<Op>)
    requires ops != []
    ensures Hashes(ops) == Hashes(ops[..|ops| - 1]) + if ops[|ops| - 1].Add? then {ops[|ops| - 1].hash} else {}
  {
    var a := ops[..|ops| - 1];
    forall h | h in Hashes(ops)
      ensures h in Hashes(a) || (ops[|ops| - 1].Add? && h == ops[|ops| - 1].hash)
    {
      var i :| 0 <= i < |ops| && ops[i].Add? && ops[i].hash == h;
      if i < |a| {
        assert a[i] == ops[i];
      }
    }
    forall h | h in Hashes(a)
      ensures h in Hashes(ops)
    {
      var i :| 0 <= i < |a| && a[i].Add? && a[i].hash == h;
      assert a[i] == ops[i];
    }
  }

  lemma LargestInsert(hs: set<nat>, h: nat, i: nat, v: nat)
    requires Largest(hs, i, v)
    ensures Largest(hs + {h}, i, if RegNo(h) == i then Max(v, Rank(h)) else v)
  {
    if v > 0 {
      var w :| w in hs && RegNo(w) == i && Rank(w) == v;
      assert w in hs + {h};
    }
    assert h in hs + {h};
  }

  /** Order and repetition do not matter: runs that add the same hashes end with the same registers. */
  lemma SameHashesSameRegisters(ops: seq<Op>, ops': seq<Op>)
    requires Hashes(ops) == Hashes(ops')
    ensures After(Zeros(), ops) == After(Zeros(), ops')
  {
    forall i | 0 <= i < REGISTERS
      ensures After(Zeros(), ops)[i] == After(Zeros(), ops')[i]
    {
      RegisterIsLargest(ops, i);
      RegisterIsLargest(ops', i);
    }
  }

  /** Merging two vectors is having added the values of both. */
  lemma MergeIsUnion(ops: seq<Op>, ops': seq<Op>)
    ensures MaxAll(After(Zeros(), ops), After(Zeros(), ops')) == After(Zeros(), ops + ops')
  {
    forall i | 0 <= i < REGISTERS
      ensures MaxAll(After(Zeros(), ops), After(Zeros(), ops'))[i] == After(Zeros(), ops + ops')[i]
    {
      RegisterIsLargest(ops, i);
      RegisterIsLargest(ops', i);
      RegisterIsLargest(ops + ops', i);
      HashesConcat(ops, ops');
      LargestUnion(Hashes(ops), Hashes(ops'), i, After(Zeros(), ops)[i], After(Zeros(), ops')[i]);
    }
  }

  lemma HashesConcat(a: seq<Op>, b: seq<Op>)
    ensures Hashes(a + b) == Hashes(a) + Hashes(b)
  {
    var c := a + b;
    forall h | h in Hashes(a)
      ensures h in Hashes(c)
    {
      var i :| 0 <= i < |a| && a[i].Add? && a[i].hash == h;
      assert c[i] == a[i];
    }
    forall h | h in Hashes(b)
      ensures h in Hashes(c)
    {
      var i :| 0 <= i < |b| && b[i].Add? && b[i].hash == h;
      assert c[|a| + i] == b[i];
    }
    forall h | h in Hashes(c)
      ensures h in Hashes(a) || h in Hashes(b)
    {
      var i :| 0 <= i < |c| && c[i].Add? && c[i].hash == h;
      assert if i < |a| then c[i] == a[i] else c[i] == b[i - |a|];
    }
  }

  lemma LargestUnion(hs: set<nat>, hs': set<nat>, i: nat, v: nat, v': nat)
    requires Largest(hs, i, v) && Largest(hs', i, v')
    ensures Largest(hs + hs', i, Max(v, v'))
  {
    if v > 0 {
      var w :| w in hs && RegNo(w) == i && Rank(w) == v;
      assert w in hs + hs';
    }
    if v' > 0 {
      var w :| w in hs' && RegNo(w) == i && Rank(w) == v';
      assert w in hs + hs';
    }
  }
}
