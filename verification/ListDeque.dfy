/** Lists of redis_functions.cpp: pushes, pops and ranges on a doubly linked list whose ends are stale when it is empty. */
module ListDeque {
  import opened Bytes
  import opened Seqs
  import opened Dlist

  type Str = seq<Byte>

  datatype Side = LeftSide | RightSide

  datatype Reply = Error | Length(n: nat) | Array(items: seq<Str>) | NullRead

  ghost function Vals(ns: seq<DListNode>): (s: seq<Str>)
    ensures |s| == |ns|
    ensures forall i :: 0 <= i < |ns| ==> s[i] == ns[i].val
  {
    seq(|ns|, i requires 0 <= i < |ns| => ns[i].val)
  }

  // The deque as a sequence.

  ghost function Pushed(s: seq<Str>, side: Side, v: Str): seq<Str> {
    match side case LeftSide => [v] + s case RightSide => s + [v]
  }

  ghost function End(s: seq<Str>, side: Side): Str
    requires s != []
  {
    match side case LeftSide => s[0] case RightSide => s[|s| - 1]
  }

  ghost function Popped(s: seq<Str>, side: Side): seq<Str>
    requires s != []
  {
    match side case LeftSide => s[1..] case RightSide => s[..|s| - 1]
  }

  /** The first n elements from one side, in the order they come off. */
  ghost function Taken(s: seq<Str>, side: Side, n: nat): seq<Str>
    requires n <= |s|
  {
    if n == 0 then [] else Taken(s, side, n - 1) + [match side case LeftSide => s[n - 1] case RightSide => s[|s| - n]]
  }

  ghost function Left(s: seq<Str>, side: Side, n: nat): seq<Str>
    requires n <= |s|
  {
    match side case LeftSide => s[n..] case RightSide => s[..|s| - n]
  }

  /** dmin of a signed count and an unsigned size: a negative count is a large one. */
  function PopCount(count: int, size: nat): (n: nat)
    ensures n <= size
  {
    if count % WORD < size then count % WORD else size
  }

  ghost function AfterPop(s: seq<Str>, side: Side, count: int): seq<Str> {
    var n := PopCount(count, |s|);
    if n == 0 then s else Left(s, side, n)
  }

  ghost function PopReply(s: seq<Str>, side: Side, count: int): Reply {
    var n := PopCount(count, |s|);
    if n == 0 then Error else Array(Taken(s, side, n))
  }

  class List {
    var head: DListNode?
    var tail: DListNode?
    var size: nat
    ghost var nodes: seq<DListNode>

    constructor ()
      ensures Valid() && nodes == []
    {
      head, tail, size, nodes := null, null, 0, [];
    }

    /** With no element left, head and tail may point anywhere. */
    ghost predicate Valid()
      reads this, nodes
    {
      |nodes| == size && Chain(nodes, null, null) && Ends(head, tail, nodes)
    }

    ghost function Contents(): (s: seq<Str>)
      reads this
      ensures |s| == |nodes|
    {
      Vals(nodes)
    }

    method Update(h: DListNode?, t: DListNode?, n: nat, ghost ns: seq<DListNode>)
      requires |ns| == n && Chain(ns, null, null) && Ends(h, t, ns)
      modifies this
      ensures Valid() && nodes == ns
    {
      head, tail, size, nodes := h, t, n, ns;
    }

    /** do_push */
    method Push(side: Side, v: Str) returns (n: nat)
      requires Valid()
      modifies this, nodes
      ensures Valid() && Contents() == Pushed(old(Contents()), side, v) && n == |Contents()|
      ensures forall j :: 0 <= j < |nodes| ==> nodes[j] in old(nodes) || fresh(nodes[j])
    {
      var node := new DListNode(v, 0);
      var h, t := LinkNode(head, tail, size, side, node, nodes);
      ValsAdded(nodes, side, node);
      n := size + 1;
      Update(h, t, n, Added(nodes, side, node));
    }

    /** The loop body of do_pop. */
    method PopOne(side: Side) returns (v: Str)
      requires Valid() && size > 0
      modifies this, nodes
      ensures Valid() && v == End(old(Contents()), side) && Contents() == Popped(old(Contents()), side)
      ensures forall j :: 0 <= j < |nodes| ==> nodes[j] in old(nodes)
    {
      var node := match side case LeftSide => head case RightSide => tail;
      v := node.val;
      ValsRemoved(nodes, side);
      var h, t := UnlinkEnd(head, tail, side, nodes);
      Update(h, t, size - 1, Removed(nodes, side));
    }

    /** n elements off one side. */
    method PopMany(side: Side, n: nat, ghost s: seq<Str>) returns (items: seq<Str>)
      requires Valid() && s == Contents() && n <= |s|
      modifies this, nodes
      ensures Valid() && items == Taken(s, side, n) && Contents() == Left(s, side, n)
      ensures forall j :: 0 <= j < |nodes| ==> nodes[j] in old(nodes)
    {
      items := [];
      var i := 0;
      LeftNone(s, side);
      while i < n
        invariant i <= n && Valid() && (forall j :: 0 <= j < |nodes| ==> nodes[j] in old(nodes))
        invariant items == Taken(s, side, i) && Contents() == Left(s, side, i)
      {
        LeftStep(s, side, i);
        var v := PopOne(side);
        items, i := items + [v], i + 1;
      }
    }

    /** do_pop on an existing list. */
    method Pop(side: Side, count: int) returns (r: Reply)
      requires Valid()
      modifies this, nodes
      ensures Valid() && Contents() == AfterPop(old(Contents()), side, count)
      ensures r == PopReply(old(Contents()), side, count)
      ensures forall j :: 0 <= j < |nodes| ==> nodes[j] in old(nodes)
    {
      var n := PopCount(count, size);
      if n <= 0 {
        return Error;
      }
      var items := PopMany(side, n, Contents());
      r := Array(items);
    }

    /** do_lrange on an existing list. */
    method LRange(start0: int, end0: int) returns (r: Reply)
      requires Valid()
      ensures r == Range(Contents(), start0, end0)
    {
      var start := if start0 < 0 then size + start0 else start0;
      var end := if end0 < 0 then size + end0 else end0;
      if start < 0 || start >= size {
        return Error;
      }
      var begin := Seek(head, tail, size, start, nodes);
      var n := if end - start + 1 > 0 then end - start + 1 else 0;
      n := if n < size then n else size;
      RangeIs(Contents(), start, end, n);
      r := EmitFrom(begin, n, nodes, start);
    }
  }

  ghost function Added(ns: seq<DListNode>, side: Side, node: DListNode): seq<DListNode> {
    match side case LeftSide => [node] + ns case RightSide => ns + [node]
  }

  lemma ValsAdded(ns: seq<DListNode>, side: Side, node: DListNode)
    ensures Vals(Added(ns, side, node)) == Pushed(Vals(ns), side, node.val)
  {
  }

  /** Where head and tail point, unless there is nothing to point at. */
  ghost predicate Ends(head: DListNode?, tail: DListNode?, ns: seq<DListNode>) {
    ns != [] ==> head == ns[0] && tail == ns[|ns| - 1]
  }

  lemma OneNode(node: DListNode)
    requires node.prev == null && node.next == null
    ensures Chain([node], null, null)
  {
    var ns := [node];
    assert ns[1..] == [];
    assert Distinct(ns[1..]) && ns[0] !in ns[1..];
    assert Fwd(ns, null) && Back(ns, null);
  }

  /** The three cases of do_push. */
  method LinkNode(head: DListNode?, tail: DListNode?, size: nat, side: Side, node: DListNode, ghost ns: seq<DListNode>)
    returns (head': DListNode, tail': DListNode)
    requires size == |ns| && Chain(ns, null, null) && Ends(head, tail, ns)
    requires node !in ns && node.prev == null && node.next == null
    modifies ns, node
    ensures Chain(Added(ns, side, node), null, null) && Ends(head', tail', Added(ns, side, node))
  {
    if size == 0 {
      Nil([node]);
      OneNode(node);
      return node, node;
    }
    match side
    case LeftSide =>
      LinkFront(head, node, ns);
      return node, tail;
    case RightSide =>
      LinkBack(tail, node, ns);
      return head, node;
  }

  method LinkFront(head: DListNode, node: DListNode, ghost ns: seq<DListNode>)
    requires Chain(ns, null, null) && ns != [] && head == ns[0] && node !in ns && node.prev == null && node.next == null
    modifies ns, node
    ensures Chain([node] + ns, null, null)
  {
    DistinctPairs(ns);
    DistinctConcat([node], ns);
    InsertBefore(head, node);
    assert Fwd(ns, null);
    assert Back(ns, node);
    FwdConcat([node], ns, null);
    BackConcat([node], ns, null);
  }

  method LinkBack(tail: DListNode, node: DListNode, ghost ns: seq<DListNode>)
    requires Chain(ns, null, null) && ns != [] && tail == ns[|ns| - 1] && node !in ns && node.prev == null && node.next == null
    modifies ns, node
    ensures Chain(ns + [node], null, null)
  {
    DistinctPairs(ns);
    DistinctConcat(ns, [node]);
    InsertAfter(tail, node);
    assert Fwd(ns, node);
    assert Back(ns, null);
    FwdConcat(ns, [node], null);
    BackConcat(ns, [node], null);
  }

  ghost function Removed(ns: seq<DListNode>, side: Side): seq<DListNode>
    requires ns != []
  {
    match side case LeftSide => ns[1..] case RightSide => ns[..|ns| - 1]
  }

  lemma ValsRemoved(ns: seq<DListNode>, side: Side)
    requires ns != []
    ensures Vals(Removed(ns, side)) == Popped(Vals(ns), side)
  {
  }

  lemma LeftNone(s: seq<Str>, side: Side)
    ensures Left(s, side, 0) == s
  {
  }

  lemma LeftStep(s: seq<Str>, side: Side, i: nat)
    requires i < |s|
    ensures Left(s, side, i) != [] && Left(s, side, i + 1) == Popped(Left(s, side, i), side)
    ensures Taken(s, side, i + 1) == Taken(s, side, i) + [End(Left(s, side, i), side)]
  {
  }

  /** Unlinking the node at one end. */
  method UnlinkEnd(head: DListNode?, tail: DListNode?, side: Side, ghost ns: seq<DListNode>)
    returns (head': DListNode?, tail': DListNode?)
    requires ns != [] && Chain(ns, null, null) && Ends(head, tail, ns)
    modifies ns
    ensures Chain(Removed(ns, side), null, null) && Ends(head', tail', Removed(ns, side))
  {
    match side
    case LeftSide =>
      head' := UnlinkFront(head, ns);
      tail' := tail;
    case RightSide =>
      tail' := UnlinkBack(tail, ns);
      head' := head;
  }

  method UnlinkFront(node: DListNode, ghost ns: seq<DListNode>) returns (head: DListNode?)
    requires ns != [] && Chain(ns, null, null) && node == ns[0]
    modifies ns
    ensures Chain(ns[1..], null, null) && head == First(ns[1..], null)
  {
    ghost var t := ns[1..];
    assert ns == [node] + t;
    DistinctParts([node], t);
    FwdConcat([node], t, null);
    BackConcat([node], t, null);
    DistinctPairs(t);
    if node.next != null {
      node.next.prev := null;
    }
    assert Fwd(t, null);
    assert Back(t, null);
    return node.next;
  }

  method UnlinkBack(node: DListNode, ghost ns: seq<DListNode>) returns (tail: DListNode?)
    requires ns != [] && Chain(ns, null, null) && node == ns[|ns| - 1]
    modifies ns
    ensures Chain(ns[..|ns| - 1], null, null) && tail == Last(ns[..|ns| - 1], null)
  {
    ghost var t := ns[..|ns| - 1];
    assert ns == t + [node];
    DistinctParts(t, [node]);
    FwdConcat(t, [node], null);
    BackConcat(t, [node], null);
    DistinctPairs(t);
    if node.prev != null {
      node.prev.next := null;
    }
    assert Fwd(t, null);
    assert Back(t, null);
    return node.prev;
  }

  /** Popped elements are those at that end, from the outside in, and the rest stays in order. */
  lemma {:induction false} TakenIs(s: seq<Str>, side: Side, n: nat)
    requires n <= |s|
    ensures |Taken(s, side, n)| == n
    ensures forall i :: 0 <= i < n ==> Taken(s, side, n)[i] == match side case LeftSide => s[i] case RightSide => s[|s| - 1 - i]
  {
    if n > 0 {
      TakenIs(s, side, n - 1);
    }
  }

  /** A 32-bit count: as many as asked for and there are, and all of them if it is negative. */
  lemma PopCountIs(count: int, size: nat)
    requires -0x8000_0000 <= count < 0x8000_0000 && size < 0x8000_0000
    ensures PopCount(count, size) == if count < 0 || count >= size then size else count
  {
    assert count < 0 ==> count % WORD == count + WORD;
  }

  // Whole runs.

  datatype Op = PushOp(side: Side, v: Str) | PopOp(side: Side, count: int)

  ghost function Apply(s: seq<Str>, op: Op): seq<Str> {
    match op case PushOp(side, v) => Pushed(s, side, v) case PopOp(side, n) => AfterPop(s, side, n)
  }

  ghost function ReplyTo(s: seq<Str>, op: Op): Reply {
    match op case PushOp(_, _) => Length(|s| + 1) case PopOp(side, n) => PopReply(s, side, n)
  }

  ghost function ApplyAll(s: seq<Str>, ops: seq<Op>): seq<Str> {
    if ops == [] then s else Apply(ApplyAll(s, ops[..|ops| - 1]), ops[|ops| - 1])
  }

  /** Each reply is the deque's at that point of the run. */
  ghost predicate Replied(ops: seq<Op>, replies: seq<Reply>) {
    var all := |replies| <= |ops| &&
      forall i :: 0 <= i < |replies| ==> replies[i] == ReplyTo(ApplyAll([], ops[..i]), ops[i]);
    all
  }

  lemma RepliedMore(ops: seq<Op>, replies: seq<Reply>, r: Reply)
    requires Replied(ops, replies) && |replies| < |ops|
    requires r == ReplyTo(ApplyAll([], ops[..|replies|]), ops[|replies|])
    ensures Replied(ops, replies + [r])
  {
  }

  /** Over every run from the empty list the linked nodes are a deque, whatever the ends pointed at when it was empty. */
  method Replay(ops: seq<Op>) returns (l: List, replies: seq<Reply>)
    ensures fresh(l) && l.Valid() && l.Contents() == ApplyAll([], ops)
    ensures |replies| == |ops| && Replied(ops, replies)
  {
    l := new List();
    replies := [];
    var i := 0;
    while i < |ops|
      invariant i <= |ops| && |replies| == i
      invariant fresh(l) && l.Valid() && AllNew(l.nodes)
      invariant l.Contents() == ApplyAll([], ops[..i]) && Replied(ops, replies)
    {
      ApplyMore(ops, i);
      var r := Do(l, ops[i]);
      RepliedMore(ops, replies, r);
      replies, i := replies + [r], i + 1;
    }
    assert ops[..|ops|] == ops;
  }

  lemma ApplyMore(ops: seq<Op>, i: nat)
    requires i < |ops|
    ensures ApplyAll([], ops[..i + 1]) == Apply(ApplyAll([], ops[..i]), ops[i])
  {
    assert ops[..i + 1][..i] == ops[..i];
  }

  twostate predicate AllNew(new ns: seq<DListNode>) {
    forall j :: 0 <= j < |ns| ==> fresh(ns[j])
  }

  method Do(l: List, op: Op) returns (r: Reply)
    requires l.Valid()
    modifies l, l.nodes
    ensures l.Valid() && l.Contents() == Apply(old(l.Contents()), op)
    ensures r == ReplyTo(old(l.Contents()), op)
    ensures forall j :: 0 <= j < |l.nodes| ==> l.nodes[j] in old(l.nodes) || fresh(l.nodes[j])
  {
    match op
    case PushOp(side, v) =>
      var n := l.Push(side, v);
      r := Length(n);
    case PopOp(side, count) =>
      r := l.Pop(side, count);
  }

  /** begin->prev, r times from the tail. */
  method WalkBack(tail: DListNode?, r0: nat, ghost ns: seq<DListNode>) returns (begin: DListNode)
    requires Back(ns, null) && r0 < |ns| && tail == ns[|ns| - 1]
    ensures begin == ns[|ns| - 1 - r0]
  {
    begin := tail;
    var r: nat := r0;
    while r > 0
      invariant r <= r0 && begin == ns[|ns| - 1 - (r0 - r)]
    {
      begin := begin.prev;
      r := r - 1;
    }
  }

  /** begin->next, l times from the head. */
  method WalkForward(head: DListNode?, l0: nat, ghost ns: seq<DListNode>) returns (begin: DListNode)
    requires Fwd(ns, null) && l0 < |ns| && head == ns[0]
    ensures begin == ns[l0]
  {
    begin := head;
    var l: nat := l0;
    while l > 0
      invariant l <= l0 && begin == ns[l0 - l]
    {
      begin := begin.next;
      l := l - 1;
    }
  }

  /** The node at `start`, from the end that is farther away. */
  method Seek(head: DListNode?, tail: DListNode?, size: nat, start: nat, ghost ns: seq<DListNode>) returns (begin: DListNode)
    requires Chain(ns, null, null) && Ends(head, tail, ns) && size == |ns| && start < size
    ensures begin == ns[start]
  {
    var left, right := start, size - start - 1;
    if left < right {
      begin := WalkBack(tail, right, ns);
    } else {
      begin := WalkForward(head, left, ns);
    }
  }

  /** The emission loop: n values from `first` on, unless the list ends before. */
  method EmitFrom(first: DListNode, n: nat, ghost ns: seq<DListNode>, ghost start: nat) returns (r: Reply)
    requires Fwd(ns, null) && start < |ns| && first == ns[start]
    ensures r == if start + n <= |ns| then Array(Vals(ns)[start..start + n]) else NullRead
  {
    var begin: DListNode? := first;
    var items: seq<Str> := [];
    var i: nat := 0;
    ghost var s := Vals(ns);
    while i < n
      invariant i <= n && start + i <= |ns|
      invariant begin == if start + i < |ns| then ns[start + i] else null
      invariant items == s[start..start + i]
    {
      if begin == null {
        return NullRead;
      }
      assert s[start..start + i + 1] == s[start..start + i] + [s[start + i]];
      items := items + [begin.val];
      begin := begin.next;
      i := i + 1;
    }
    return Array(items);
  }

  /** The number of elements asked for, cut to the size, against the answer. */
  lemma RangeIs(s: seq<Str>, start: nat, end: int, n: nat)
    requires start < |s|
    requires var m := if end - start + 1 > 0 then end - start + 1 else 0; n == if m < |s| then m else |s|
    ensures RangeFrom(s, start, end) == if start + n <= |s| then Array(s[start..start + n]) else NullRead
  {
    assert s[0..|s|] == s;
  }

  // Ranges.

  ghost function FromEnd(i: int, n: nat): int { if i < 0 then n + i else i }

  /** What LRANGE answers: the length is cut to the list's size and not to what is left of it after `start`. */
  ghost function Range(s: seq<Str>, start0: int, end0: int): Reply {
    var start, end := FromEnd(start0, |s|), FromEnd(end0, |s|);
    if !(0 <= start < |s|) then Error else RangeFrom(s, start, end)
  }

  ghost function RangeFrom(s: seq<Str>, start: nat, end: int): Reply
    requires start < |s|
  {
    if end < start then Array([])
    else if end < |s| then Array(s[start..end + 1])
    else if start == 0 then Array(s)
    else NullRead
  }

  /** The slice with its end cut to the list's end. */
  ghost function Slice(s: seq<Str>, start: nat, end: int): seq<Str>
    requires start < |s|
  {
    if end < start then [] else if end < |s| then s[start..end + 1] else s[start..]
  }

  /** Element i is also element i - size: -1 is the last one, and -size the first. */
  lemma RangeNumbers(s: seq<Str>, i: nat, j: nat)
    requires i <= j < |s|
    ensures Range(s, i, j) == Array(s[i..j + 1])
    ensures Range(s, i - |s|, j - |s|) == Array(s[i..j + 1])
    ensures Range(s, i, -1) == Array(s[i..]) && Range(s, i - |s|, -1) == Array(s[i..])
  {
    assert s[i..|s|] == s[i..];
  }

  /** A start outside the list is an error, and nothing else is. */
  lemma RangeError(s: seq<Str>, start0: int, end0: int)
    ensures Range(s, start0, end0) == Error <==> start0 >= |s| || start0 < -|s|
  {
  }

  /** A push on the left comes before the others, one on the right after them. */
  lemma PushedEnd(s: seq<Str>, v: Str)
    ensures Range(Pushed(s, LeftSide, v), 0, 0) == Array([v]) && Range(Pushed(s, RightSide, v), -1, -1) == Array([v])
    ensures s != [] ==> Range(Pushed(s, LeftSide, v), 1, -1) == Array(s) && Range(Pushed(s, RightSide, v), 0, -2) == Array(s)
  {
    var l, r := [v] + s, s + [v];
    assert l[0..1] == [v] && r[|s|..|s| + 1] == [v] && l[1..|l|] == s && r[0..|s|] == s;
  }

  /** A pop takes back a push on the same side. */
  lemma PopAfterPush(s: seq<Str>, side: Side, v: Str)
    ensures PopReply(Pushed(s, side, v), side, 1) == Array([v]) && AfterPop(Pushed(s, side, v), side, 1) == s
  {
    match side
    case LeftSide =>
      TakenOne([v] + s);
    case RightSide =>
      TakenOne(s + [v]);
      assert (s + [v])[..|s|] == s;
  }

  /** After a push on the other side a pop takes what it took before. */
  lemma PopOther(s: seq<Str>, side: Side, v: Str)
    requires s != []
    ensures var other := if side == LeftSide then RightSide else LeftSide;
      PopReply(Pushed(s, other, v), side, 1) == PopReply(s, side, 1)
  {
    TakenOne(s);
    match side
    case LeftSide => TakenOne(s + [v]);
    case RightSide => TakenOne([v] + s);
  }

  lemma TakenOne(s: seq<Str>)
    requires s != []
    ensures Taken(s, LeftSide, 1) == [s[0]] && Taken(s, RightSide, 1) == [s[|s| - 1]]
  {
    assert Taken(s, LeftSide, 0) == [] && Taken(s, RightSide, 0) == [];
  }

  /** LRANGE runs off the list exactly when it starts after the first element and ends beyond the last. */
  lemma RangeExact(s: seq<Str>, start0: int, end0: int)
    requires -|s| <= start0 < |s|
    ensures var start, end := if start0 < 0 then |s| + start0 else start0, if end0 < 0 then |s| + end0 else end0;
      Range(s, start0, end0) == Array(Slice(s, start, end)) <==> !(start > 0 && end >= |s|)
  {
    assert s[0..] == s;
  }
}
