/** ZQUERY of redis_functions.cpp: lower bound, rank offset, and a reply whose array length is patched afterwards. */
module ZQuery {
  import opened Wrappers
  import opened Bytes
  import opened Seqs
  import opened AvlShape
  import opened AvlTree
  import opened ZOrder
  import opened ZTree

  /** The eight bytes of a double. */
  type Dbl = real -> seq<Byte>

  function OutDouble(dbl: Dbl, x: real): seq<Byte> { [TAG_DOUBLE] + dbl(x) }

  function OutStr(s: seq<Byte>): seq<Byte> { [TAG_STR] + Le32(|s|) + s }

  /** out_double and out_str for one member. */
  function OutPair(dbl: Dbl, score: real, key: seq<Byte>): seq<Byte> { OutDouble(dbl, score) + OutStr(key) }

  /** The members of `s` written one after the other. */
  ghost function OutPairs(dbl: Dbl, s: seq<AvlNode>): seq<Byte> {
    if s == [] then [] else OutPairs(dbl, s[..|s| - 1]) + OutPair(dbl, s[|s| - 1].score, s[|s| - 1].key)
  }

  /** The reply written directly, with its length known in advance: two elements per member. */
  ghost function Reply(dbl: Dbl, s: seq<AvlNode>): seq<Byte> {
    [TAG_ARR] + Le32(2 * |s|) + OutPairs(dbl, s)
  }

  /** From position `start`, at most ceil(limit / 2) members; none if `start` is outside the sequence. */
  ghost function Page(s: seq<AvlNode>, start: int, limit: nat): seq<AvlNode> {
    if 0 <= start < |s| then
      var m := (limit + 1) / 2;
      s[start..if start + m < |s| then start + m else |s|]
    else []
  }

  /** memcpy of four bytes into the buffer. */
  function Patch(buf: seq<Byte>, pos: nat, n: nat): seq<Byte>
    requires pos + 4 <= |buf|
  {
    buf[..pos] + Le32(n) + buf[pos + 4..]
  }

  lemma PatchMiddle(a: seq<Byte>, b: seq<Byte>, n: nat)
    ensures Patch(a + Le32(0) + b, |a|, n) == a + Le32(n) + b
  {
    assert (a + Le32(0) + b)[..|a|] == a;
    assert (a + Le32(0) + b)[|a| + 4..] == b;
  }

  /** do_zrangequery once the zset is found. */
  method RangeQuery(root: AvlNode?, scoreLb: real, keyLb: seq<Byte>, offset: int, limit: nat, dbl: Dbl,
                    out0: seq<Byte>, ghost t: Tree) returns (out: seq<Byte>)
    requires SortedAvl(root, t)
    ensures var s, k := InOrder(t), Rank(InOrder(t), scoreLb, keyLb);
      out == out0 + Reply(dbl, if k == |s| then [] else Page(s, k + offset, limit))
  {
    assert allocated(Nodes(t));
    var lb := LowerBound(root, scoreLb, keyLb, t);
    ghost var k := Rank(InOrder(t), scoreLb, keyLb);
    if lb == null {
      out := out0 + [TAG_ARR] + Le32(0);
      assert out == out0 + Reply(dbl, []);
      return;
    }
    var znode := Offset(lb, offset, root, t, k);
    out := Emit(znode, limit, dbl, out0, root, t, k + offset);
  }

  /** One more member has been written. */
  lemma OneMore(dbl: Dbl, s: seq<AvlNode>, start: nat, m: nat)
    requires start + m < |s|
    ensures OutPairs(dbl, s[start..start + m + 1]) ==
      OutPairs(dbl, s[start..start + m]) + OutPair(dbl, s[start + m].score, s[start + m].key)
  {
    var u := s[start..start + m + 1];
    assert u[..|u| - 1] == s[start..start + m] && u[|u| - 1] == s[start + m];
  }

  ghost function At(s: seq<AvlNode>, i: nat): AvlNode? { if i < |s| then s[i] else null }

  /** zset_offset(znode, 1) */
  method Next(znode: AvlNode, ghost root: AvlNode?, ghost t: Tree, ghost s: seq<AvlNode>, ghost i: nat) returns (res: AvlNode?)
    requires Avl(root, t) && s == InOrder(t) && i < |s| && s[i] == znode
    ensures Avl(root, t) && res == At(s, i + 1)
  {
    assert allocated(Nodes(t));
    res := Offset(znode, 1, root, t, i);
  }

  /** The emission loop: `size` counts elements, two per member. */
  method EmitLoop(first: AvlNode, limit: nat, dbl: Dbl, out0: seq<Byte>, ghost root: AvlNode?, ghost t: Tree,
                  ghost s: seq<AvlNode>, ghost start: nat)
    returns (out: seq<Byte>, size: nat)
    requires Avl(root, t) && s == InOrder(t) && start < |s| && s[start] == first
    ensures out == out0 + OutPairs(dbl, Page(s, start, limit))
    ensures size == 2 * |Page(s, start, limit)|
  {
    ghost var m: nat := 0;
    var znode: AvlNode? := first;
    var body: seq<Byte> := [];
    size := 0;
    while znode != null && size < limit
      invariant Avl(root, t) && size == 2 * m <= limit + 1
      invariant Emitted(dbl, s, start, m, body) && znode == At(s, start + m)
      decreases |s| - m
    {
      EmittedMore(dbl, s, start, m, body);
      body := body + OutPair(dbl, znode.score, znode.key);
      znode := Next(znode, root, t, s, start + m);
      size, m := size + 2, m + 1;
    }
    PageIs(s, start, limit, m);
    out := out0 + body;
  }

  /** m members from `start` on have been written. */
  ghost predicate Emitted(dbl: Dbl, s: seq<AvlNode>, start: nat, m: nat, body: seq<Byte>) {
    var emitted := start + m <= |s| && body == OutPairs(dbl, s[start..start + m]);
    emitted
  }

  lemma EmittedMore(dbl: Dbl, s: seq<AvlNode>, start: nat, m: nat, body: seq<Byte>)
    requires Emitted(dbl, s, start, m, body) && start + m < |s|
    ensures Emitted(dbl, s, start, m + 1, body + OutPair(dbl, s[start + m].score, s[start + m].key))
  {
    OneMore(dbl, s, start, m);
  }

  lemma PageIs(s: seq<AvlNode>, start: nat, limit: nat, m: nat)
    requires start < |s| && start + m <= |s| && 2 * m <= limit + 1 && (start + m == |s| || 2 * m >= limit)
    ensures Page(s, start, limit) == s[start..start + m]
  {
  }

  lemma PatchReply(dbl: Dbl, out0: seq<Byte>, out: seq<Byte>, page: seq<AvlNode>)
    requires out == out0 + [TAG_ARR] + Le32(0) + OutPairs(dbl, page)
    ensures |out0| + 5 <= |out| && Patch(out, |out0| + 1, 2 * |page|) == out0 + Reply(dbl, page)
  {
    PatchMiddle(out0 + [TAG_ARR], OutPairs(dbl, page), 2 * |page|);
    Assoc4(out0, [TAG_ARR], Le32(2 * |page|), OutPairs(dbl, page));
  }

  /** The emission and the patch of the array length. */
  method Emit(first: AvlNode?, limit: nat, dbl: Dbl, out0: seq<Byte>, ghost root: AvlNode?, ghost t: Tree, ghost start: int)
    returns (out: seq<Byte>)
    requires Avl(root, t)
    requires first == if 0 <= start < |InOrder(t)| then InOrder(t)[start] else null
    ensures out == out0 + Reply(dbl, Page(InOrder(t), start, limit))
  {
    var sizePos := |out0| + 1;
    var head, size := out0 + [TAG_ARR] + Le32(0), 0;
    out := head;
    if first != null {
      out, size := EmitLoop(first, limit, dbl, head, root, t, InOrder(t), start);
    }
    PatchReply(dbl, out0, out, Page(InOrder(t), start, limit));
    out := Patch(out, sizePos, size);
  }

  /** The documented page: at most `limit` members. */
  ghost function PairsPage(s: seq<AvlNode>, start: int, limit: nat): seq<AvlNode> {
    if 0 <= start < |s| then s[start..if start + limit < |s| then start + limit else |s|] else []
  }

  /**
   The limit counts emitted elements, so the page is the documented one exactly when it has at most one member
   to give, or what is left fits into half the limit.
   */
  lemma LimitCountsElements(s: seq<AvlNode>, start: int, limit: nat)
    ensures Page(s, start, limit) == PairsPage(s, start, limit) <==>
      !(0 <= start < |s|) || limit <= 1 || |s| - start <= (limit + 1) / 2
  {
    if 0 <= start < |s| && limit > 1 && |s| - start > (limit + 1) / 2 {
      assert |Page(s, start, limit)| == (limit + 1) / 2;
      assert |PairsPage(s, start, limit)| > (limit + 1) / 2;
    }
  }

  // The client's side.

  /** What the client prints for one tagged value; nothing for a tag it does not know. */
  datatype Item = ArrayOf(n: nat) | Text(s: seq<Byte>) | Number(bytes: seq<Byte>) | Whole(n: nat) | Null | Nothing

  /** A tag, and what follows it, with its length; None if that reads past the end. */
  function ReadItem(buf: seq<Byte>): (r: Option<(Item, nat)>)
    requires buf != []
    ensures r.Some? ==> 0 < r.value.1 <= |buf|
  {
    match buf[0]
    case 2 => if |buf| < 5 then None else Some((ArrayOf(FromLe32(buf[1..5])), 5))
    case 0 => if |buf| < 5 then None else Some((Whole(FromLe32(buf[1..5])), 5))
    case 5 => if |buf| < 9 then None else Some((Number(buf[1..9]), 9))
    case 3 => Some((Null, 1))
    case _ =>
      if buf[0] != 1 && buf[0] != 4 then Some((Nothing, 1))
      else if |buf| < 5 || |buf| < 5 + FromLe32(buf[1..5]) then None
      else var n := FromLe32(buf[1..5]); Some((Text(buf[5..5 + n]), 5 + n))
  }

  function Before(item: Item, rest: Option<seq<Item>>): Option<seq<Item>> {
    match rest case None => None case Some(items) => Some([item] + items)
  }

  /** print_res: the values one after the other. */
  function Read(buf: seq<Byte>): Option<seq<Item>>
    decreases |buf|
  {
    if buf == [] then Some([])
    else
      match ReadItem(buf)
      case None => None
      case Some((item, n)) => Before(item, Read(buf[n..]))
  }

  ghost predicate Eight(dbl: Dbl) { forall x :: |dbl(x)| == 8 }

  lemma ReadNumber(dbl: Dbl, x: real, rest: seq<Byte>)
    requires Eight(dbl)
    ensures Read(OutDouble(dbl, x) + rest) == Before(Number(dbl(x)), Read(rest))
  {
    var buf := OutDouble(dbl, x) + rest;
    assert buf[0] == 5 && buf[1..9] == dbl(x) && buf[9..] == rest;
  }

  lemma ReadText(key: seq<Byte>, rest: seq<Byte>)
    requires |key| < WORD
    ensures Read(OutStr(key) + rest) == Before(Text(key), Read(rest))
  {
    var n, buf := |key|, OutStr(key) + rest;
    Le32RoundTrip(n);
    assert buf[0] == 1 && buf[1..5] == Le32(n) && buf[5..5 + n] == key && buf[5 + n..] == rest;
  }

  lemma ReadHead(n: nat, rest: seq<Byte>)
    requires n < WORD
    ensures Read([TAG_ARR] + Le32(n) + rest) == Before(ArrayOf(n), Read(rest))
  {
    var buf := [TAG_ARR] + Le32(n) + rest;
    Le32RoundTrip(n);
    assert buf[0] == 2 && buf[1..5] == Le32(n) && buf[5..] == rest;
  }

  /** `items` are the scores and keys of the members, score first. */
  ghost predicate Tells(dbl: Dbl, s: seq<AvlNode>, items: seq<Item>) {
    |items| == 2 * |s| &&
    forall i :: 0 <= i < |s| ==> items[2 * i] == Number(dbl(s[i].score)) && items[2 * i + 1] == Text(s[i].key)
  }

  lemma TellsMore(dbl: Dbl, s: seq<AvlNode>, items: seq<Item>, n: nat)
    requires n < |s| && Tells(dbl, s[..n], items)
    ensures Tells(dbl, s[..n + 1], items + [Number(dbl(s[n].score)), Text(s[n].key)])
  {
    var more := items + [Number(dbl(s[n].score)), Text(s[n].key)];
    forall i | 0 <= i <= n
      ensures more[2 * i] == Number(dbl(s[i].score)) && more[2 * i + 1] == Text(s[i].key)
    {
      if i < n {
        assert s[..n][i] == s[i] && items[2 * i] == Number(dbl(s[i].score)) && items[2 * i + 1] == Text(s[i].key);
      }
    }
  }

  lemma ReadPair(dbl: Dbl, score: real, key: seq<Byte>, rest: seq<Byte>, items: seq<Item>)
    requires Eight(dbl) && |key| < WORD && Read(rest) == Some(items)
    ensures Read(OutPair(dbl, score, key) + rest) == Some([Number(dbl(score)), Text(key)] + items)
  {
    Assoc(OutDouble(dbl, score), OutStr(key), rest);
    ReadNumber(dbl, score, OutStr(key) + rest);
    ReadText(key, rest);
    Assoc([Number(dbl(score))], [Text(key)], items);
    assert [Number(dbl(score))] + [Text(key)] == [Number(dbl(score)), Text(key)];
  }

  /** The members read as `told`, in front of the items of the rest. */
  ghost predicate Reads(dbl: Dbl, s: seq<AvlNode>, rest: seq<Byte>, told: seq<Item>, items: seq<Item>) {
    var all := Tells(dbl, s, told) && Read(OutPairs(dbl, s) + rest) == Some(told + items);
    all
  }

  lemma ReadsNone(dbl: Dbl, s: seq<AvlNode>, rest: seq<Byte>, items: seq<Item>)
    requires Read(rest) == Some(items)
    ensures Reads(dbl, s[..0], rest, [], items)
  {
    Nil(rest);
    Nil(items);
  }

  lemma ReadsMore(dbl: Dbl, s: seq<AvlNode>, n: nat, rest: seq<Byte>, front: seq<Item>, items: seq<Item>)
    requires n < |s|
    requires var x := s[n]; var last := [Number(dbl(x.score)), Text(x.key)];
      Reads(dbl, s[..n], OutPair(dbl, x.score, x.key) + rest, front, last + items)
    ensures Reads(dbl, s[..n + 1], rest, front + [Number(dbl(s[n].score)), Text(s[n].key)], items)
  {
    var x := s[n];
    TellsMore(dbl, s, front, n);
    OneMore(dbl, s, 0, n);
    Assoc(OutPairs(dbl, s[..n]), OutPair(dbl, x.score, x.key), rest);
    Assoc(front, [Number(dbl(x.score)), Text(x.key)], items);
  }

  lemma {:induction false} ReadPairs(dbl: Dbl, s: seq<AvlNode>, n: nat, rest: seq<Byte>, items: seq<Item>)
    returns (told: seq<Item>)
    requires Eight(dbl) && n <= |s| && (forall i :: 0 <= i < |s| ==> |s[i].key| < WORD) && Read(rest) == Some(items)
    ensures Reads(dbl, s[..n], rest, told, items)
  {
    if n == 0 {
      told := [];
      ReadsNone(dbl, s, rest, items);
    } else {
      var x := s[n - 1];
      ReadPair(dbl, x.score, x.key, rest, items);
      told := ReadPairs(dbl, s, n - 1, OutPair(dbl, x.score, x.key) + rest, [Number(dbl(x.score)), Text(x.key)] + items);
      ReadsMore(dbl, s, n - 1, rest, told, items);
      told := told + [Number(dbl(x.score)), Text(x.key)];
    }
  }

  /** Reading the reply gives the length of the array, and then the score and the key of each member in turn. */
  lemma ReplyReads(dbl: Dbl, s: seq<AvlNode>) returns (told: seq<Item>)
    requires Eight(dbl) && 2 * |s| < WORD && forall i :: 0 <= i < |s| ==> |s[i].key| < WORD
    ensures Tells(dbl, s, told) && Read(Reply(dbl, s)) == Some([ArrayOf(2 * |s|)] + told)
  {
    told := ReadPairs(dbl, s, |s|, [], []);
    assert s[..|s|] == s;
    Nil(OutPairs(dbl, s));
    Nil(told);
    ReadHead(2 * |s|, OutPairs(dbl, s));
  }
}
