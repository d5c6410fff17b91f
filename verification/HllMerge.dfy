/** The merge loop of add_sparse as it is written: unreduced value and count, and an end that does not move. */
module HllMerge {
  import opened Bytes
  import opened Seqs
  import opened HllFlags
  import opened HllSparse

  /**
   Behind the bytes there are zeros. Each join writes a zero at `size`; further behind it memmove may have drawn in bytes
   that nothing has written. They do not matter: after two joins at most three steps are left, of which one goes over the joined
   flag and one over that zero, and the last finds no pair before hll_end; after more joins none of them is reached.
   */
  function ByteAt(w: seq<Byte>, p: nat): Byte { if p < |w| then w[p] else 0 }

  lemma ValBounds(x: Byte)
    ensures 1 <= ValValue(x) <= MAX_VALUE && 1 <= ValCnt(x) <= 4
  {
  }

  /** *(p + 1) = (1 << 7) | (v1 << 2) | len; memmove(p, p + 1, hll_end - p) */
  function JoinAt(w: seq<Byte>, p: nat): (w': seq<Byte>)
    requires p + 1 < |w| && Joins(w[p], w[p + 1])
    ensures |w'| == |w| - 1 && w'[..p] == w[..p]
  {
    ValBounds(w[p]);
    w[..p] + [OrVal(ValValue(w[p]), ValCnt(w[p]) + ValCnt(w[p + 1]))] + w[p + 2..]
  }

  /** n steps of the loop from byte p. */
  function LitMerge(w: seq<Byte>, p: nat, end: nat, n: nat): seq<Byte>
    decreases n
  {
    if n == 0 || p >= end then w
    else if IsZero(ByteAt(w, p)) then LitMerge(w, p + 1, end, n - 1)
    else if !IsVal(ByteAt(w, p)) then LitMerge(w, p + 2, end, n - 1)
    else if p + 1 < end && Joins(w[p], ByteAt(w, p + 1)) then LitMerge(JoinAt(w, p), p, end, n - 1)
    else LitMerge(w, p + 1, end, n - 1)
  }

  /** What lies before p stays. */
  lemma {:induction false} Prefix(w: seq<Byte>, p: nat, end: nat, n: nat, q: nat)
    requires q <= p && q <= |w|
    ensures q <= |LitMerge(w, p, end, n)| && LitMerge(w, p, end, n)[..q] == w[..q]
    decreases n
  {
    if n > 0 && p < end {
      if IsZero(ByteAt(w, p)) {
        Prefix(w, p + 1, end, n - 1, q);
      } else if !IsVal(ByteAt(w, p)) {
        Prefix(w, p + 2, end, n - 1, q);
      } else if p + 1 < end && Joins(w[p], ByteAt(w, p + 1)) {
        Prefix(JoinAt(w, p), p, end, n - 1, q);
        SamePrefix(w, JoinAt(w, p), p, q);
      } else {
        Prefix(w, p + 1, end, n - 1, q);
      }
    }
  }

  lemma SamePrefix(w: seq<Byte>, w': seq<Byte>, p: nat, q: nat)
    requires q <= p <= |w| && p <= |w'| && w[..p] == w'[..p]
    ensures w[..q] == w'[..q]
  {
    assert w[..q] == w[..p][..q] && w'[..q] == w'[..p][..q];
  }

  // The loop on flags: the bytes are those of `gs` and a tail that does not begin with a VAL.

  lemma ByteParts(q: nat, r: nat)
    requires q < 32 && r < 4
    ensures Fits(Val(q + 1, r + 1)) && EncFlag(Val(q + 1, r + 1)) == [128 + 4 * q + r]
  {
  }

  /**
   The flag that the merged byte stands for: the value goes up by one or two, or from 32 round to one or two.
   */
  lemma LitFlag(v: nat, len: nat) returns (m: Flag)
    requires 1 <= v <= MAX_VALUE && 2 <= len <= 4
    ensures m.Val? && Fits(m) && EncFlag(m) == [OrVal(v, len)] && m.count <= len + 1
    ensures if v < MAX_VALUE then v < m.value <= v + 2 else m.value <= 2
  {
    var q := if v == MAX_VALUE then (if len == 4 then 1 else 0) else if len == 4 && v % 2 == 0 then v + 1 else v;
    var r := if len == 4 then 0 else len;
    ByteParts(q, r);
    m := Val(q + 1, r + 1);
  }

  /** Flags j and j + 1 replaced by one. */
  ghost function JoinWith(gs: seq<Flag>, j: nat, m: Flag): seq<Flag>
    requires j + 1 < |gs|
  {
    gs[..j] + [m] + gs[j + 2..]
  }

  /** The first bytes at flag j and at the one after it. */
  lemma BytesAt(gs: seq<Flag>, tail: seq<Byte>, j: nat)
    requires AllFit(gs) && j < |gs|
    ensures var w, p := Enc(gs) + tail, Pos(gs, j);
      p < |w| && w[p] == EncFlag(gs[j])[0] && Pos(gs, j + 1) == p + |EncFlag(gs[j])| <= |Enc(gs)| &&
      ByteAt(w, Pos(gs, j + 1)) == if j + 1 < |gs| then EncFlag(gs[j + 1])[0] else ByteAt(tail, 0)
  {
    FirstAt(gs, j);
    PosStep(gs, j);
    NotAtEnd(gs, j + 1);
    if j + 1 < |gs| {
      FirstAt(gs, j + 1);
    }
  }

  lemma FirstAt(gs: seq<Flag>, j: nat)
    requires AllFit(gs) && j < |gs|
    ensures Pos(gs, j) < |Enc(gs)| && Enc(gs)[Pos(gs, j)] == EncFlag(gs[j])[0]
  {
    ReadAt(Enc(gs), gs, j);
  }

  /** The tail does not begin with a VAL. */
  ghost predicate Quiet(tail: seq<Byte>) { !IsVal(ByteAt(tail, 0)) }

  lemma StepOver(gs: seq<Flag>, tail: seq<Byte>, j: nat, end: nat, n: nat)
    requires AllFit(gs) && j < |gs| && n > 0 && end >= |Enc(gs)|
    requires if j + 1 < |gs| then !Mergeable(gs[j], gs[j + 1]) else gs[j].Val? ==> Quiet(tail)
    ensures LitMerge(Enc(gs) + tail, Pos(gs, j), end, n) == LitMerge(Enc(gs) + tail, Pos(gs, j + 1), end, n - 1)
  {
    BytesAt(gs, tail, j);
    FirstByte(gs[j]);
    if j + 1 < |gs| {
      JoinsIs(gs[j], gs[j + 1]);
    }
  }

  lemma StepJoin(gs: seq<Flag>, tail: seq<Byte>, j: nat, end: nat, n: nat, m: Flag)
    requires AllFit(gs) && j + 1 < |gs| && n > 0 && end >= |Enc(gs)| && Mergeable(gs[j], gs[j + 1])
    requires Fits(m) && EncFlag(m) == [OrVal(gs[j].value, gs[j].count + gs[j + 1].count)]
    ensures AllFit(JoinWith(gs, j, m))
    ensures LitMerge(Enc(gs) + tail, Pos(gs, j), end, n) == LitMerge(Enc(JoinWith(gs, j, m)) + tail, Pos(gs, j), end, n - 1)
  {
    var w, p, b := Enc(gs) + tail, Pos(gs, j), EncFlag(m)[0];
    JoinWithBytes(gs, tail, j, m, b, w, p);
    ReadPair(gs[j], gs[j + 1], w[p], w[p + 1]);
    JoinStep(w, p, end, n, b);
  }

  lemma ReadPair(f: Flag, g: Flag, x: Byte, y: Byte)
    requires Fits(f) && Fits(g) && Mergeable(f, g) && x == EncFlag(f)[0] && y == EncFlag(g)[0]
    ensures Joins(x, y) && ValValue(x) == f.value && ValCnt(x) == f.count && ValCnt(y) == g.count
  {
    FirstByte(f);
    FirstByte(g);
  }

  /** The loop on bytes that join. */
  lemma JoinStep(w: seq<Byte>, p: nat, end: nat, n: nat, b: Byte)
    requires p + 1 < |w| && p + 1 < end && n > 0 && Joins(w[p], w[p + 1])
    requires ValValue(w[p]) < 64 && b == OrVal(ValValue(w[p]), ValCnt(w[p]) + ValCnt(w[p + 1]))
    ensures LitMerge(w, p, end, n) == LitMerge(w[..p] + [b] + w[p + 2..], p, end, n - 1)
  {
  }

  lemma JoinWithEnc(gs: seq<Flag>, j: nat, m: Flag)
    requires AllFit(gs) && j + 1 < |gs| && Fits(m)
    ensures AllFit(gs[..j]) && AllFit(gs[j + 2..]) && AllFit(JoinWith(gs, j, m))
    ensures Enc(JoinWith(gs, j, m)) == Enc(gs[..j]) + EncFlag(m) + Enc(gs[j + 2..])
  {
    EncThreeParts(gs[..j], m, gs[j + 2..]);
  }

  lemma JoinWithBytes(gs: seq<Flag>, tail: seq<Byte>, j: nat, m: Flag, b: Byte, w: seq<Byte>, p: nat)
    requires AllFit(gs) && j + 1 < |gs| && gs[j].Val? && gs[j + 1].Val? && Fits(m) && EncFlag(m) == [b]
    requires w == Enc(gs) + tail && p == Pos(gs, j)
    ensures p + 1 < |Enc(gs)| <= |w| && w[p] == EncFlag(gs[j])[0] && w[p + 1] == EncFlag(gs[j + 1])[0]
    ensures AllFit(JoinWith(gs, j, m)) && w[..p] + [b] + w[p + 2..] == Enc(JoinWith(gs, j, m)) + tail
  {
    TwoBytes(gs, j);
    Middle(Enc(gs), Enc(gs[..j]), EncFlag(gs[j])[0], EncFlag(gs[j + 1])[0], Enc(gs[j + 2..]), tail, b);
    JoinWithEnc(gs, j, m);
  }

  lemma TwoBytes(gs: seq<Flag>, j: nat)
    requires AllFit(gs) && j + 1 < |gs| && gs[j].Val? && gs[j + 1].Val?
    ensures AllFit(gs[..j]) && AllFit(gs[j + 2..])
    ensures Enc(gs) == Enc(gs[..j]) + [EncFlag(gs[j])[0]] + [EncFlag(gs[j + 1])[0]] + Enc(gs[j + 2..])
  {
    TwoFlags(gs, j);
    OneByte(gs[j]);
    OneByte(gs[j + 1]);
  }

  lemma JoinWithPos(gs: seq<Flag>, j: nat, m: Flag)
    requires AllFit(gs) && j + 1 < |gs| && gs[j].Val? && gs[j + 1].Val? && Fits(m) && m.Val?
    ensures AllFit(JoinWith(gs, j, m)) && JoinWith(gs, j, m)[..j] == gs[..j] && Pos(JoinWith(gs, j, m), j) == Pos(gs, j)
    ensures |Enc(JoinWith(gs, j, m))| == |Enc(gs)| - 1
  {
    TwoBytes(gs, j);
    EncThreeParts(gs[..j], m, gs[j + 2..]);
    OneByte(m);
  }

  lemma EncThreeParts(a: seq<Flag>, m: Flag, b: seq<Flag>)
    requires AllFit(a) && Fits(m) && AllFit(b)
    ensures AllFit(a + [m] + b) && Enc(a + [m] + b) == Enc(a) + EncFlag(m) + Enc(b)
  {
    EncOne(m);
    EncConcat(a, [m]);
    EncConcat(a + [m], b);
  }

  lemma Middle(e: seq<Byte>, a: seq<Byte>, x: Byte, y: Byte, b: seq<Byte>, tail: seq<Byte>, z: Byte)
    requires e == a + [x] + [y] + b
    ensures |a| + 1 < |e| && (e + tail)[|a|] == x && (e + tail)[|a| + 1] == y
    ensures (e + tail)[..|a|] + [z] + (e + tail)[|a| + 2..] == a + [z] + b + tail
  {
    var w := e + tail;
    assert w[..|a|] == a && w[|a| + 2..] == b + tail;
    Assoc(a + [z], b, tail);
  }

  // Runs of the loop.

  /** Some pair of neighbours within the next n flags is merged. */
  ghost predicate Fires(gs: seq<Flag>, j: nat, n: nat) {
    exists i {:trigger gs[i]} :: j <= i < j + n && i + 1 < |gs| && Mergeable(gs[i], gs[i + 1])
  }

  lemma FiresStep(gs: seq<Flag>, j: nat, n: nat)
    requires n > 0
    ensures Fires(gs, j, n) <==> (j + 1 < |gs| && Mergeable(gs[j], gs[j + 1])) || Fires(gs, j + 1, n - 1)
  {
  }

  /** Up to flag i nothing is merged. */
  lemma {:induction false} Walk(gs: seq<Flag>, tail: seq<Byte>, j: nat, i: nat, end: nat, n: nat)
    requires AllFit(gs) && j <= i <= |gs| && i - j <= n && end >= |Enc(gs)| && !Fires(gs, j, i - j)
    requires Quiet(tail) || i < |gs| || (gs != [] && !gs[|gs| - 1].Val?)
    ensures LitMerge(Enc(gs) + tail, Pos(gs, j), end, n) == LitMerge(Enc(gs) + tail, Pos(gs, i), end, n - (i - j))
    decreases i - j
  {
    if j < i {
      FiresStep(gs, j, i - j);
      StepOver(gs, tail, j, end, n);
      Walk(gs, tail, j + 1, i, end, n - 1);
    }
  }

  /** Where there are only zeros nothing changes. */
  lemma {:induction false} PastEnd(w: seq<Byte>, p: nat, end: nat, n: nat)
    requires p >= |w|
    ensures LitMerge(w, p, end, n) == w
    decreases n
  {
    if n > 0 && p < end {
      PastEnd(w, p + 1, end, n - 1);
    }
  }

  /** Without a pair to merge the loop changes nothing. */
  lemma NoFire(gs: seq<Flag>, j: nat, n: nat)
    requires AllFit(gs) && j <= |gs| && !Fires(gs, j, n)
    ensures LitMerge(Enc(gs), Pos(gs, j), |Enc(gs)|, n) == Enc(gs)
  {
    var i := if j + n <= |gs| then j + n else |gs|;
    Nil(Enc(gs));
    assert !Fires(gs, j, i - j);
    Walk(gs, [], j, i, |Enc(gs)|, n);
    if i == |gs| {
      PosEnd(gs);
      PastEnd(Enc(gs), Pos(gs, i), |Enc(gs)|, n - (i - j));
    }
  }

  /** The first pair that is merged. */
  lemma {:induction false} FirstFire(gs: seq<Flag>, j: nat, n: nat) returns (i: nat)
    requires Fires(gs, j, n)
    ensures j <= i < j + n && i + 1 < |gs| && Mergeable(gs[i], gs[i + 1]) && !Fires(gs, j, i - j)
    decreases n
  {
    FiresStep(gs, j, n);
    if j + 1 < |gs| && Mergeable(gs[j], gs[j + 1]) {
      i := j;
    } else {
      i := FirstFire(gs, j + 1, n - 1);
      FiresStep(gs, j, i - j);
    }
  }

  /** How far n merges can take a value: up by at most two each, and from 32 round to one or two. */
  ghost predicate Reach(u: nat, u': nat, n: nat) {
    u <= u' <= u + 2 * n || (n > 0 && u + 2 * (n - 1) >= MAX_VALUE && u' <= 2 * n)
  }

  lemma ReachStep(u: nat, m: nat, u': nat, n: nat)
    requires n > 0 && u <= MAX_VALUE && Reach(m, u', n - 1) && (if u < MAX_VALUE then u < m <= u + 2 else m <= 2)
    ensures Reach(u, u', n)
    ensures n <= 5 && u > 0 ==> u' != u && u' + 1 != u
  {
  }

  /** The flag at j after the loop, and what follows it. */
  lemma {:induction false} Climb(gs: seq<Flag>, tail: seq<Byte>, j: nat, end: nat, n: nat) returns (f: Flag, rest: seq<Byte>)
    requires AllFit(gs) && j < |gs| && gs[j].Val? && end >= |Enc(gs)| && Quiet(tail)
    ensures f.Val? && Fits(f) && AllFit(gs[..j]) && Reach(gs[j].value, f.value, n)
    ensures LitMerge(Enc(gs) + tail, Pos(gs, j), end, n) == Enc(gs[..j]) + EncFlag(f) + rest
    ensures n > 0 && n <= 5 && j + 1 < |gs| && Mergeable(gs[j], gs[j + 1]) ==> f.value != gs[j].value && f.value + 1 != gs[j].value
    decreases n
  {
    if n > 0 && j + 1 < |gs| && Mergeable(gs[j], gs[j + 1]) {
      var m := LitFlag(gs[j].value, gs[j].count + gs[j + 1].count);
      StepJoin(gs, tail, j, end, n, m);
      JoinWithPos(gs, j, m);
      f, rest := Climb(JoinWith(gs, j, m), tail, j, end, n - 1);
      ReachStep(gs[j].value, m.value, f.value, n);
    } else {
      f := gs[j];
      rest := Stays(gs, tail, j, end, n);
    }
  }

  /** A flag that is not merged stays. */
  lemma Stays(gs: seq<Flag>, tail: seq<Byte>, j: nat, end: nat, n: nat) returns (rest: seq<Byte>)
    requires AllFit(gs) && j < |gs| && end >= |Enc(gs)| && Quiet(tail)
    requires n > 0 && j + 1 < |gs| ==> !Mergeable(gs[j], gs[j + 1])
    ensures AllFit(gs[..j]) && LitMerge(Enc(gs) + tail, Pos(gs, j), end, n) == Enc(gs[..j]) + EncFlag(gs[j]) + rest
  {
    var w := Enc(gs) + tail;
    PosStep(gs, j);
    if n > 0 {
      StepOver(gs, tail, j, end, n);
      rest := KeepsFlags(gs, tail, j + 1, Pos(gs, j + 1), end, n - 1);
    } else {
      rest := KeepsFlags(gs, tail, j + 1, Pos(gs, j + 1), end, 0);
    }
    PrefixStep(gs, j);
  }

  /** Flags among which nothing is merged all stay. */
  lemma KeepsAll(gs: seq<Flag>, tail: seq<Byte>, j: nat, end: nat, n: nat) returns (rest: seq<Byte>)
    requires AllFit(gs) && j <= |gs| && |gs| - j <= n && end >= |Enc(gs)| && !Fires(gs, j, |gs| - j)
    requires gs != [] && !gs[|gs| - 1].Val?
    ensures LitMerge(Enc(gs) + tail, Pos(gs, j), end, n) == Enc(gs) + rest
  {
    Walk(gs, tail, j, |gs|, end, n);
    rest := KeepsFlags(gs, tail, |gs|, Pos(gs, |gs|), end, n - (|gs| - j));
    assert gs[..|gs|] == gs;
  }

  /** What lies before flag j stays. */
  lemma KeepsFlags(gs: seq<Flag>, tail: seq<Byte>, j: nat, p: nat, end: nat, n: nat) returns (rest: seq<Byte>)
    requires AllFit(gs) && j <= |gs| && p >= Pos(gs, j)
    ensures AllFit(gs[..j]) && LitMerge(Enc(gs) + tail, p, end, n) == Enc(gs[..j]) + rest
  {
    var w, q := Enc(gs) + tail, Pos(gs, j);
    PosUpTo(gs, j);
    Prefix(w, p, end, n, q);
    rest := LitMerge(w, p, end, n)[q..];
    Halves(LitMerge(w, p, end, n), q);
    assert w[..q] == Enc(gs)[..q];
  }

  lemma Halves(w: seq<Byte>, q: nat)
    requires q <= |w|
    ensures w[..q] + w[q..] == w
  {
  }

  lemma PosUpTo(gs: seq<Flag>, j: nat)
    requires AllFit(gs) && j <= |gs|
    ensures Pos(gs, j) <= |Enc(gs)| && Enc(gs)[..Pos(gs, j)] == Enc(gs[..j])
  {
    EncConcat(gs[..j], gs[j..]);
    assert gs[..j] + gs[j..] == gs;
  }

  // What the bytes decode to.

  lemma {:induction false} ParseConcat(pre: seq<Flag>, rest: seq<Byte>)
    requires AllFit(pre)
    ensures Parse(Enc(pre) + rest) == pre + Parse(rest)
  {
    if pre == [] {
      Nil(rest);
      Nil(Parse(rest));
    } else {
      var f, more := pre[0], pre[1..];
      ParseConcat(more, rest);
      Assoc(EncFlag(f), Enc(more), rest);
      ParseOne(f, Enc(more) + rest);
      Assoc([f], more, Parse(rest));
      assert [f] + more == pre;
    }
  }

  lemma ParseOne(f: Flag, rest: seq<Byte>)
    requires Fits(f)
    ensures Parse(EncFlag(f) + rest) == [f] + Parse(rest)
  {
    HeadDecodes(f, rest);
    var bs := EncFlag(f) + rest;
    assert bs[|EncFlag(f)|..] == rest;
  }

  /** A flag in the bytes shows in the vector. */
  lemma FlagShows(pre: seq<Flag>, f: Flag, rest: seq<Byte>, out: seq<Byte>, i: nat)
    requires AllFit(pre) && Fits(f) && out == Enc(pre) + EncFlag(f) + rest && i < f.count
    ensures |Vec(pre)| + i < |Vec(Parse(out))| && Vec(Parse(out))[|Vec(pre)| + i] == ValueOf(f)
  {
    Assoc(Enc(pre), EncFlag(f), rest);
    ParseConcat(pre, EncFlag(f) + rest);
    ParseOne(f, rest);
    VecConcat(pre, [f] + Parse(rest));
    VecConcat([f], Parse(rest));
    VecOne(f);
  }

  /** The loop as written keeps the vector exactly when it finds nothing to merge. */
  lemma MergeExact(gs: seq<Flag>, j: nat, n: nat)
    requires AllFit(gs) && j <= |gs| && n <= 5
    ensures Vec(Parse(LitMerge(Enc(gs), Pos(gs, j), |Enc(gs)|, n))) == Vec(gs) <==> !Fires(gs, j, n)
  {
    if Fires(gs, j, n) {
      var i := FirstFire(gs, j, n);
      Nil(Enc(gs));
      Walk(gs, [], j, i, |Enc(gs)|, n);
      var f, rest := Climb(gs, [], i, |Enc(gs)|, n - (i - j));
      FlagShows(gs[..i], f, rest, LitMerge(Enc(gs), Pos(gs, j), |Enc(gs)|, n), 0);
      VecAt(gs, i, RegPos(gs, i));
    } else {
      NoFire(gs, j, n);
      ParseEnc(gs);
    }
  }

  /** `hs` is what the bytes have become; the flags before j are as in `gs`, and there are at most n registers more. */
  ghost predicate Grown(gs: seq<Flag>, j: nat, n: int, hs: seq<Flag>, out: seq<Byte>) {
    var grown := AllFit(hs) && out == Enc(hs) && j <= |gs| && j <= |hs| && hs[..j] == gs[..j] && |Vec(hs)| <= |Vec(gs)| + n;
    grown
  }

  lemma GrownBack(gs: seq<Flag>, j: nat, n: int, hs: seq<Flag>, out: seq<Byte>)
    requires Grown(gs, j + 1, n - 1, hs, out)
    ensures Grown(gs, j, n, hs, out)
  {
    assert hs[..j] == hs[..j + 1][..j] && gs[..j] == gs[..j + 1][..j];
  }

  lemma GrownJoin(gs: seq<Flag>, gs': seq<Flag>, j: nat, n: int, hs: seq<Flag>, out: seq<Byte>)
    requires Grown(gs', j, n - 1, hs, out) && j <= |gs| && gs'[..j] == gs[..j] && |Vec(gs')| <= |Vec(gs)| + 1
    ensures Grown(gs, j, n, hs, out)
  {
  }

  /** Whatever is merged, the vector grows by at most one register a step. */
  lemma {:induction false} Grow(gs: seq<Flag>, j: nat, end: nat, n: nat) returns (hs: seq<Flag>)
    requires AllFit(gs) && j <= |gs| && end >= |Enc(gs)|
    ensures Grown(gs, j, n, hs, LitMerge(Enc(gs), Pos(gs, j), end, n))
    decreases n
  {
    if n > 0 && j + 1 < |gs| && Mergeable(gs[j], gs[j + 1]) {
      var m := LitFlag(gs[j].value, gs[j].count + gs[j + 1].count);
      JoinWithPos(gs, j, m);
      hs := Grow(JoinWith(gs, j, m), j, end, n - 1);
      GrowJoin(gs, j, end, n, m, hs);
    } else if n > 0 && j < |gs| {
      hs := Grow(gs, j + 1, end, n - 1);
      GrowOver(gs, j, end, n, hs);
    } else {
      JustEnds(gs, j, end, n);
      hs := gs;
    }
  }

  lemma GrowJoin(gs: seq<Flag>, j: nat, end: nat, n: nat, m: Flag, hs: seq<Flag>)
    requires AllFit(gs) && j + 1 < |gs| && n > 0 && end >= |Enc(gs)| && Mergeable(gs[j], gs[j + 1])
    requires m.Val? && Fits(m) && EncFlag(m) == [OrVal(gs[j].value, gs[j].count + gs[j + 1].count)]
    requires m.count <= gs[j].count + gs[j + 1].count + 1
    requires var gs' := JoinWith(gs, j, m);
      AllFit(gs') && j <= |gs'| && Grown(gs', j, n - 1, hs, LitMerge(Enc(gs'), Pos(gs', j), end, n - 1))
    ensures Grown(gs, j, n, hs, LitMerge(Enc(gs), Pos(gs, j), end, n))
  {
    JoinStays(gs, j, end, n, m);
    GrownJoin(gs, JoinWith(gs, j, m), j, n, hs, LitMerge(Enc(gs), Pos(gs, j), end, n));
  }

  lemma GrowOver(gs: seq<Flag>, j: nat, end: nat, n: nat, hs: seq<Flag>)
    requires AllFit(gs) && j < |gs| && n > 0 && end >= |Enc(gs)| && (j + 1 < |gs| ==> !Mergeable(gs[j], gs[j + 1]))
    requires Grown(gs, j + 1, n - 1, hs, LitMerge(Enc(gs), Pos(gs, j + 1), end, n - 1))
    ensures Grown(gs, j, n, hs, LitMerge(Enc(gs), Pos(gs, j), end, n))
  {
    JustOver(gs, j, end, n);
    GrownBack(gs, j, n, hs, LitMerge(Enc(gs), Pos(gs, j), end, n));
  }

  lemma JustOver(gs: seq<Flag>, j: nat, end: nat, n: nat)
    requires AllFit(gs) && j < |gs| && n > 0 && end >= |Enc(gs)| && (j + 1 < |gs| ==> !Mergeable(gs[j], gs[j + 1]))
    ensures LitMerge(Enc(gs), Pos(gs, j), end, n) == LitMerge(Enc(gs), Pos(gs, j + 1), end, n - 1)
  {
    Nil(Enc(gs));
    StepOver(gs, [], j, end, n);
  }

  lemma JustEnds(gs: seq<Flag>, j: nat, end: nat, n: nat)
    requires AllFit(gs) && j <= |gs| && (n == 0 || j == |gs|)
    ensures Grown(gs, j, n, gs, LitMerge(Enc(gs), Pos(gs, j), end, n))
  {
    PosEnd(gs);
    PastEnd(Enc(gs), |Enc(gs)|, end, n);
  }

  lemma JoinStays(gs: seq<Flag>, j: nat, end: nat, n: nat, m: Flag)
    requires AllFit(gs) && j + 1 < |gs| && n > 0 && end >= |Enc(gs)| && Mergeable(gs[j], gs[j + 1])
    requires m.Val? && Fits(m) && EncFlag(m) == [OrVal(gs[j].value, gs[j].count + gs[j + 1].count)]
    requires m.count <= gs[j].count + gs[j + 1].count + 1
    ensures var gs' := JoinWith(gs, j, m);
      AllFit(gs') && j <= |gs'| && gs'[..j] == gs[..j] && |Vec(gs')| <= |Vec(gs)| + 1 && |Enc(gs')| <= |Enc(gs)| &&
      LitMerge(Enc(gs), Pos(gs, j), end, n) == LitMerge(Enc(gs'), Pos(gs', j), end, n - 1)
  {
    Nil(Enc(gs));
    StepJoin(gs, [], j, end, n, m);
    JoinWithPos(gs, j, m);
    JoinWithLen(gs, j, m);
    Nil(Enc(JoinWith(gs, j, m)));
  }

  lemma JoinWithLen(gs: seq<Flag>, j: nat, m: Flag)
    requires j + 1 < |gs|
    ensures |Vec(JoinWith(gs, j, m))| + gs[j].count + gs[j + 1].count == |Vec(gs)| + m.count
  {
    ThreeVec(gs[..j], m, gs[j + 2..]);
    Around2(gs, j);
    TwoRuns(gs[..j], gs[j], gs[j + 1], gs[j + 2..]);
  }

  // The loop started on the second byte of an XZERO.

  function LowByte(c: nat): Byte
    requires c > 0
  {
    (c - 1) % 256
  }

  /** The XZERO with another second byte. */
  function WithLow(c: nat, y: Byte): nat
    requires c > 0
  {
    c - LowByte(c) + y
  }

  lemma WithLowIs(c: nat, y: Byte)
    requires 1 <= c <= 16384
    ensures Fits(XZero(WithLow(c, y))) && LowByte(WithLow(c, y)) == y
    ensures EncFlag(XZero(c)) == [EncFlag(XZero(c))[0], LowByte(c)]
    ensures EncFlag(XZero(WithLow(c, y))) == [EncFlag(XZero(c))[0], y]
  {
    var q := (c - 1) / 256;
    assert c - 1 == 256 * q + LowByte(c) && WithLow(c, y) - 1 == 256 * q + y;
    DivParts(q, y);
  }

  lemma DivParts(q: nat, y: Byte)
    ensures (256 * q + y) / 256 == q && (256 * q + y) % 256 == y
  {
  }

  /** Flag k - 1 is an XZERO; p is its second byte. */
  ghost predicate InXZero(gs: seq<Flag>, k: nat, p: nat) {
    AllFit(gs) && 0 < k <= |gs| && gs[k - 1].XZero? && p + 1 == Pos(gs, k)
  }

  lemma SecondByte(gs: seq<Flag>, k: nat, p: nat)
    requires InXZero(gs, k, p)
    ensures p < |Enc(gs)| && Enc(gs)[p] == LowByte(gs[k - 1].count)
    ensures ByteAt(Enc(gs), p + 1) == if k < |gs| then EncFlag(gs[k])[0] else 0
  {
    var c := gs[k - 1].count;
    assert Fits(gs[k - 1]);
    WithLowIs(c, 0);
    CutAt(gs, k - 1);
    PosStep(gs, k - 1);
    AtCut(Enc(gs), Enc(gs[..k - 1]), EncFlag(gs[k - 1])[0], LowByte(c), Enc(gs[k..]));
    if k < |gs| {
      assert Enc(gs[k..])[0] == EncFlag(gs[k])[0];
    }
  }

  lemma AtCut(e: seq<Byte>, a: seq<Byte>, x: Byte, y: Byte, r: seq<Byte>)
    requires e == a + [x, y] + r
    ensures |a| + 1 < |e| && e[|a| + 1] == y && ByteAt(e, |a| + 2) == ByteAt(r, 0)
  {
  }

  /** The second byte, taken for a VAL, is merged with the flag after it. */
  ghost predicate Swallows(gs: seq<Flag>, k: nat, p: nat)
    requires InXZero(gs, k, p)
  {
    k < |gs| && Joins(LowByte(gs[k - 1].count), EncFlag(gs[k])[0])
  }

  lemma MissStep(gs: seq<Flag>, k: nat, p: nat, end: nat, n: nat)
    requires InXZero(gs, k, p) && !Swallows(gs, k, p) && n > 0 && end >= |Enc(gs)|
    ensures var y := LowByte(gs[k - 1].count);
      LitMerge(Enc(gs), p, end, n) == LitMerge(Enc(gs), p + if IsVal(y) || IsZero(y) then 1 else 2, end, n - 1)
  {
    SecondByte(gs, k, p);
  }

  /** The list after the merge: the XZERO is longer or shorter, and the flag after it is gone. */
  ghost function Swallowed(gs: seq<Flag>, k: nat, b: Byte): seq<Flag>
    requires 0 < k < |gs| && gs[k - 1].count > 0
  {
    JoinWith(gs, k - 1, XZero(WithLow(gs[k - 1].count, b)))
  }

  lemma SwallowStep(gs: seq<Flag>, k: nat, p: nat, end: nat, n: nat, b: Byte)
    requires InXZero(gs, k, p) && Swallows(gs, k, p) && n > 0 && end >= |Enc(gs)|
    requires ValValue(LowByte(gs[k - 1].count)) < 64
    requires b == OrVal(ValValue(LowByte(gs[k - 1].count)), ValCnt(LowByte(gs[k - 1].count)) + ValCnt(EncFlag(gs[k])[0]))
    ensures InXZero(Swallowed(gs, k, b), k, p) && |Enc(Swallowed(gs, k, b))| <= |Enc(gs)|
    ensures LitMerge(Enc(gs), p, end, n) == LitMerge(Enc(Swallowed(gs, k, b)), p, end, n - 1)
  {
    SecondByte(gs, k, p);
    SwallowBytes(gs, k, p, b);
    PosStep(gs, k - 1);
    PosStep(gs, k);
    JoinStep(Enc(gs), p, end, n, b);
  }

  lemma SwallowBytes(gs: seq<Flag>, k: nat, p: nat, b: Byte)
    requires InXZero(gs, k, p) && k < |gs| && gs[k].Val?
    ensures p + 1 < |Enc(gs)| && InXZero(Swallowed(gs, k, b), k, p)
    ensures Enc(gs)[..p] + [b] + Enc(gs)[p + 2..] == Enc(Swallowed(gs, k, b))
  {
    var c, a, r := gs[k - 1].count, gs[..k - 1], gs[k + 1..];
    assert Fits(gs[k - 1]);
    WithLowIs(c, b);
    SwallowEnc(gs, k, b);
    TwoFlags(gs, k - 1);
    OneByte(gs[k]);
    PosStep(gs, k - 1);
    CutThree(Enc(gs), Enc(a), EncFlag(gs[k - 1])[0], LowByte(c), EncFlag(gs[k])[0], Enc(r), b);
  }

  lemma SwallowEnc(gs: seq<Flag>, k: nat, b: Byte)
    requires AllFit(gs) && 0 < k < |gs| && gs[k - 1].XZero?
    ensures var hs, m := Swallowed(gs, k, b), XZero(WithLow(gs[k - 1].count, b));
      AllFit(hs) && AllFit(gs[..k - 1]) && AllFit(gs[k + 1..]) && hs[k - 1] == m && Fits(m) &&
      Enc(hs) == Enc(gs[..k - 1]) + EncFlag(m) + Enc(gs[k + 1..]) && Pos(hs, k) == |Enc(gs[..k - 1])| + |EncFlag(m)|
  {
    var hs, m := Swallowed(gs, k, b), XZero(WithLow(gs[k - 1].count, b));
    assert Fits(gs[k - 1]);
    WithLowIs(gs[k - 1].count, b);
    JoinWithEnc(gs, k - 1, m);
    assert hs[..k - 1] == gs[..k - 1];
    PosStep(hs, k - 1);
  }

  lemma CutThree(e: seq<Byte>, a: seq<Byte>, x: Byte, y: Byte, z: Byte, r: seq<Byte>, b: Byte)
    requires e == a + [x, y] + [z] + r
    ensures |a| + 2 < |e| && e[..|a| + 1] + [b] + e[|a| + 3..] == a + [x, b] + r
  {
    assert e[..|a| + 1] == a + [x] && e[|a| + 3..] == r;
  }

  /** The XZERO before k has become one of `c` registers; the vector has changed by that and by n registers more at most. */
  ghost predicate Drifted(gs: seq<Flag>, k: nat, n: int, hs: seq<Flag>, c: nat, out: seq<Byte>) {
    var drifted :=
      AllFit(hs) && out == Enc(hs) && 0 < k <= |gs| && k <= |hs| && hs[..k - 1] == gs[..k - 1] && hs[k - 1] == XZero(c) &&
      |Vec(hs)| + gs[k - 1].count <= |Vec(gs)| + c + n;
    drifted
  }

  /** The second byte of an XZERO, as a VAL of a value that n merges can reach. */
  ghost predicate LowReach(c: nat, c': nat, n: nat) {
    c > 0 && c' > 0 && c - LowByte(c) == c' - LowByte(c') && IsVal(LowByte(c')) &&
    Reach(ValValue(LowByte(c)), ValValue(LowByte(c')), n)
  }

  lemma {:induction false} Drift(gs: seq<Flag>, k: nat, p: nat, end: nat, n: nat) returns (hs: seq<Flag>, c: nat)
    requires InXZero(gs, k, p) && end >= |Enc(gs)| && IsVal(LowByte(gs[k - 1].count))
    ensures Drifted(gs, k, n, hs, c, LitMerge(Enc(gs), p, end, n)) && LowReach(gs[k - 1].count, c, n)
    decreases n
  {
    var y := LowByte(gs[k - 1].count);
    if n == 0 {
      hs, c := gs, gs[k - 1].count;
    } else if Swallows(gs, k, p) {
      var b, gs' := SwallowOne(gs, k, p, end, n);
      hs, c := Drift(gs', k, p, end, n - 1);
      DriftBack(gs, k, n, gs', hs, c, LitMerge(Enc(gs), p, end, n), b);
    } else {
      MissStep(gs, k, p, end, n);
      hs := Grow(gs, k, end, n - 1);
      c := gs[k - 1].count;
      DriftMiss(gs, k, n, hs, LitMerge(Enc(gs), p, end, n));
    }
  }

  lemma DriftMiss(gs: seq<Flag>, k: nat, n: int, hs: seq<Flag>, out: seq<Byte>)
    requires 0 < k <= |gs| && gs[k - 1].XZero? && Grown(gs, k, n - 1, hs, out)
    ensures Drifted(gs, k, n, hs, gs[k - 1].count, out)
  {
    assert hs[..k - 1] == hs[..k][..k - 1] && gs[..k - 1] == gs[..k][..k - 1];
    assert hs[k - 1] == hs[..k][k - 1] && gs[k - 1] == gs[..k][k - 1];
  }

  /** One merge: the byte b it writes, the list it leaves. */
  lemma SwallowOne(gs: seq<Flag>, k: nat, p: nat, end: nat, n: nat) returns (b: Byte, gs': seq<Flag>)
    requires InXZero(gs, k, p) && end >= |Enc(gs)| && n > 0 && Swallows(gs, k, p)
    ensures InXZero(gs', k, p) && |Enc(gs')| <= |Enc(gs)| && gs'[k - 1] == XZero(WithLow(gs[k - 1].count, b)) && IsVal(b)
    ensures gs'[..k - 1] == gs[..k - 1] && LowByte(gs'[k - 1].count) == b && gs[k - 1].count > 0
    ensures |Vec(gs')| + gs[k - 1].count <= |Vec(gs)| + gs'[k - 1].count
    ensures LitMerge(Enc(gs), p, end, n) == LitMerge(Enc(gs'), p, end, n - 1)
    ensures var u, m := ValValue(LowByte(gs[k - 1].count)), ValValue(b);
      1 <= u <= MAX_VALUE && if u < MAX_VALUE then u < m <= u + 2 else m <= 2
  {
    var c := gs[k - 1].count;
    assert Fits(gs[k - 1]) && Fits(gs[k]);
    b := SwallowByte(LowByte(c), EncFlag(gs[k])[0]);
    gs' := Swallowed(gs, k, b);
    WithLowIs(c, b);
    SwallowStep(gs, k, p, end, n, b);
    JoinWithLen(gs, k - 1, XZero(WithLow(c, b)));
    assert gs'[..k - 1] == gs[..k - 1];
  }

  lemma SwallowByte(y: Byte, x: Byte) returns (b: Byte)
    requires Joins(y, x)
    ensures 1 <= ValValue(y) <= MAX_VALUE && ValCnt(y) + ValCnt(x) <= 4 && b == OrVal(ValValue(y), ValCnt(y) + ValCnt(x)) && IsVal(b)
    ensures if ValValue(y) < MAX_VALUE then ValValue(y) < ValValue(b) <= ValValue(y) + 2 else ValValue(b) <= 2
  {
    ValBounds(y);
    ValBounds(x);
    b := OrVal(ValValue(y), ValCnt(y) + ValCnt(x));
    var m := LitFlag(ValValue(y), ValCnt(y) + ValCnt(x));
    FirstByte(m);
  }

  lemma DriftBack(gs: seq<Flag>, k: nat, n: nat, gs': seq<Flag>, hs: seq<Flag>, c: nat, out: seq<Byte>, b: Byte)
    requires n > 0 && 0 < k <= |gs| && k <= |gs'| && gs[k - 1].count > 0 && gs'[k - 1].count > 0
    requires Drifted(gs', k, n - 1, hs, c, out) && LowReach(gs'[k - 1].count, c, n - 1)
    requires gs'[k - 1].count == WithLow(gs[k - 1].count, b) && LowByte(gs'[k - 1].count) == b && gs'[..k - 1] == gs[..k - 1]
    requires |Vec(gs')| + gs[k - 1].count <= |Vec(gs)| + gs'[k - 1].count
    requires var u, m := ValValue(LowByte(gs[k - 1].count)), ValValue(b);
      1 <= u <= MAX_VALUE && if u < MAX_VALUE then u < m <= u + 2 else m <= 2
    ensures Drifted(gs, k, n, hs, c, out) && LowReach(gs[k - 1].count, c, n)
    ensures n <= 5 ==> ValValue(LowByte(c)) != ValValue(LowByte(gs[k - 1].count))
  {
    ReachStep(ValValue(LowByte(gs[k - 1].count)), ValValue(b), ValValue(LowByte(c)), n);
  }

  /** After a first merge the XZERO's second byte stands for another value. */
  lemma DriftAway(gs: seq<Flag>, k: nat, p: nat, end: nat, n: nat) returns (hs: seq<Flag>, c: nat)
    requires InXZero(gs, k, p) && end >= |Enc(gs)| && Swallows(gs, k, p) && 0 < n <= 5
    ensures Drifted(gs, k, n, hs, c, LitMerge(Enc(gs), p, end, n)) && LowReach(gs[k - 1].count, c, n)
    ensures ValValue(LowByte(c)) != ValValue(LowByte(gs[k - 1].count))
  {
    var b, gs' := SwallowOne(gs, k, p, end, n);
    hs, c := Drift(gs', k, p, end, n - 1);
    DriftBack(gs, k, n, gs', hs, c, LitMerge(Enc(gs), p, end, n), b);
  }
}
