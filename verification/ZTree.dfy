/** The tree half of zset.cpp: insertion by descent, lower bound and rank offsets. */
module ZTree {
  import opened Bytes
  import opened AvlShape
  import opened AvlTree
  import opened ZOrder

  /** A complete AVL tree, strictly sorted by (score, key). */
  ghost predicate SortedAvl(root: AvlNode?, t: Tree)
    reads Nodes(t)
  {
    var avl, sorted := Avl(root, t), Sorted(InOrder(t));
    avl && sorted
  }

  lemma LoneLeaf(leaf: AvlNode)
    requires leaf.left == null && leaf.right == null
    ensures var t := Node(Leaf, leaf, Leaf); Linked(leaf.parent, t) && Nodes(t) == {leaf} && Distinct(t)
  {
  }

  /** Stores a new leaf at the hole the descent stopped at. */
  method StoreLeaf(parent: AvlNode, goRight: bool, leaf: AvlNode, ghost c: Ctx)
    requires !c.Top? && parent == c.n && (goRight <==> c.InR?) && leaf !in CtxNodes(c)
    requires Spine(c) && SidesCached(c) && CtxDistinct(c)
    requires leaf.parent == parent && leaf.left == null && leaf.right == null
    modifies parent
    ensures Climbing(c, Node(Leaf, leaf, Leaf))
  {
    assert Nodes(Node(Leaf, leaf, Leaf)) == {leaf};
    if goRight {
      parent.right := leaf;
    } else {
      parent.left := leaf;
    }
    assert Spine(c) && SidesCached(c);
    LoneLeaf(leaf);
  }

  /** What the climb from a new leaf makes of a complete tree. */
  lemma {:induction false} LeafFix(c: Ctx, leaf: AvlNode)
    requires Balanced(Plug(c, Leaf)) && Distinct(Plug(c, Leaf)) && leaf !in Nodes(Plug(c, Leaf))
    ensures var t := FixUp(c, Node(Leaf, leaf, Leaf));
      Balanced(t) && Distinct(t) && InOrder(t) == Before(c) + [leaf] + After(c)
    ensures leaf !in CtxNodes(c) && Nodes(Plug(c, Leaf)) == CtxNodes(c)
  {
    var me := Node(Leaf, leaf, Leaf);
    PlugBalanced(c, Leaf);
    PlugNodes(c, Leaf);
    PlugNodes(c, me);
    FixUpCorrect(c, me, 0);
    assert InOrder(me) == [leaf];
  }

  /** Attaches `leaf` at the empty place `c` of a complete tree and repairs upwards. */
  method AttachLeaf(parent: AvlNode?, goRight: bool, leaf: AvlNode, ghost c: Ctx)
    returns (root: AvlNode?, ghost t: Tree)
    requires Avl(Root(Plug(c, Leaf)), Plug(c, Leaf)) && leaf !in Nodes(Plug(c, Leaf))
    requires parent == Above(c) && (!c.Top? ==> (goRight <==> c.InR?))
    requires leaf.left == null && leaf.right == null
    modifies Nodes(Plug(c, Leaf)) + {leaf}
    ensures Avl(root, t) && InOrder(t) == Before(c) + [leaf] + After(c)
  {
    InFocus(c, Leaf);
    LeafFix(c, leaf);
    t := FixUp(c, Node(Leaf, leaf, Leaf));
    root := Hook(parent, goRight, leaf, c);
  }

  method Hook(parent: AvlNode?, goRight: bool, leaf: AvlNode, ghost c: Ctx) returns (root: AvlNode?)
    requires parent == Above(c) && (!c.Top? ==> (goRight <==> c.InR?))
    requires Spine(c) && SidesCached(c) && CtxDistinct(c) && leaf !in CtxNodes(c)
    requires leaf.left == null && leaf.right == null
    modifies CtxNodes(c) + {leaf}
    ensures var t := FixUp(c, Node(Leaf, leaf, Leaf)); root == Root(t) && Linked(null, t) && Cached(t)
  {
    leaf.parent := parent;
    if parent != null {
      StoreLeaf(parent, goRight, leaf, c);
    }
    LoneLeaf(leaf);
    root := AvlFix(leaf, c, Node(Leaf, leaf, Leaf));
  }

  /** The path read so far decides the pair against every node left of and right of the focus. */
  ghost predicate Decided(c: Ctx, score: real, key: seq<Byte>) {
    && (forall n :: n in Before(c) ==> Below(n, score, key))
    && (forall n :: n in After(c) ==> !Below(n, score, key))
  }

  lemma {:induction false} InOrderAt(c: Ctx, t: Tree, n: AvlNode)
    requires t.Node? && Sorted(InOrder(Plug(c, t)))
    ensures n in InOrder(t.l) ==> Below(n, t.n.score, t.n.key)
    ensures n in InOrder(t.r) ==> Below(t.n, n.score, n.key)
  {
    PlugInOrder(c, t);
    SortedAt(Before(c), InOrder(t.l), t.n, InOrder(t.r), After(c), n);
  }

  lemma SortedAt(a: seq<AvlNode>, l: seq<AvlNode>, x: AvlNode, r: seq<AvlNode>, z: seq<AvlNode>, n: AvlNode)
    requires Sorted(a + (l + [x] + r) + z)
    ensures n in l ==> Below(n, x.score, x.key)
    ensures n in r ==> Below(x, n.score, n.key)
  {
    var s, k := a + (l + [x] + r) + z, |a| + |l|;
    assert s[k] == x;
    if n in l {
      var i :| 0 <= i < |l| && l[i] == n;
      assert s[|a| + i] == n;
    }
    if n in r {
      var i :| 0 <= i < |r| && r[i] == n;
      assert s[k + 1 + i] == n;
    }
  }

  /** One comparison of a descent. */
  lemma {:induction false} DecideStep(c: Ctx, t: Tree, score: real, key: seq<Byte>)
    requires t.Node? && Decided(c, score, key) && Sorted(InOrder(Plug(c, t)))
    ensures Below(t.n, score, key) ==> Decided(InR(c, t.l, t.n), score, key)
    ensures !Below(t.n, score, key) ==> Decided(InL(c, t.n, t.r), score, key)
  {
    if Below(t.n, score, key) {
      forall n | n in Before(InR(c, t.l, t.n)) ensures Below(n, score, key) {
        InOrderAt(c, t, n);
        if n in InOrder(t.l) {
          ZLessTransitive(n.score, n.key, t.n.score, t.n.key, score, key);
        }
      }
    } else {
      forall n | n in After(InL(c, t.n, t.r)) ensures !Below(n, score, key) {
        InOrderAt(c, t, n);
        if n in InOrder(t.r) && Below(n, score, key) {
          ZLessTransitive(t.n.score, t.n.key, n.score, n.key, score, key);
        }
      }
    }
  }

  /** zset_insert's tree half: descend by zless, attach, repair. */
  method TreeInsert(root0: AvlNode?, leaf: AvlNode, ghost t0: Tree) returns (root: AvlNode?, ghost t: Tree)
    requires SortedAvl(root0, t0) && leaf !in Nodes(t0)
    requires leaf.left == null && leaf.right == null
    requires forall n :: n in Nodes(t0) ==> n.score != leaf.score || n.key != leaf.key
    modifies Nodes(t0) + {leaf}
    ensures SortedAvl(root, t)
    ensures var k := Rank(InOrder(t0), leaf.score, leaf.key);
      k <= |InOrder(t0)| && InOrder(t) == InOrder(t0)[..k] + [leaf] + InOrder(t0)[k..]
    ensures Nodes(t) == Nodes(t0) + {leaf}
  {
    var from, curr: AvlNode? := root0, null;
    var goRight := false;
    ghost var c, cur := Top, t0;
    assert allocated(Nodes(t0));
    while from != null
      invariant Plug(c, cur) == t0 && from == Root(cur) && Linked(Above(c), cur)
      invariant curr == Above(c) && (!c.Top? ==> (goRight <==> c.InR?))
      invariant Decided(c, leaf.score, leaf.key)
      modifies {}
      decreases cur
    {
      DecideStep(c, cur, leaf.score, leaf.key);
      curr := from;
      goRight := Below(curr, leaf.score, leaf.key);
      if goRight {
        from, c, cur := curr.right, InR(c, cur.l, cur.n), cur.r;
      } else {
        from, c, cur := curr.left, InL(c, cur.n, cur.r), cur.l;
      }
    }
    InsertOrder(c, leaf, t0);
    root, t := AttachLeaf(curr, goRight, leaf, c);
    InsertNodes(t0, t, Before(c), leaf, After(c));
  }

  lemma {:induction false} InsertNodes(t0: Tree, t: Tree, a: seq<AvlNode>, x: AvlNode, b: seq<AvlNode>)
    requires InOrder(t0) == a + b && InOrder(t) == a + [x] + b
    ensures Nodes(t) == Nodes(t0) + {x}
  {
    InOrderNodes(t0);
    InOrderNodes(t);
    assert x in a + [x] + b;
  }

  lemma {:induction false} InsertOrder(c: Ctx, leaf: AvlNode, t0: Tree)
    requires t0 == Plug(c, Leaf) && Sorted(InOrder(t0)) && Decided(c, leaf.score, leaf.key)
    requires forall n :: n in Nodes(t0) ==> n.score != leaf.score || n.key != leaf.key
    ensures var k := Rank(InOrder(t0), leaf.score, leaf.key);
      k <= |InOrder(t0)| && Before(c) == InOrder(t0)[..k] && After(c) == InOrder(t0)[k..]
    ensures InOrder(t0) == Before(c) + After(c)
    ensures Sorted(Before(c) + [leaf] + After(c))
  {
    PlugInOrder(c, Leaf);
    InOrderNodes(t0);
    var a, b := Before(c), After(c);
    assert InOrder(t0) == a + b;
    forall n | n in b ensures n in Nodes(t0) { assert n in a + b; }
    RankUnique(a + b, leaf.score, leaf.key, |a|);
    SortedInsert(a, leaf, b);
  }

  method LowerBound(root: AvlNode?, score: real, key: seq<Byte>, ghost t: Tree) returns (lb: AvlNode?)
    requires SortedAvl(root, t)
    ensures var s, k := InOrder(t), Rank(InOrder(t), score, key);
      k <= |s| && lb == if k < |s| then s[k] else null
  {
    var from := root;
    lb := null;
    ghost var c, cur := Top, t;
    while from != null
      invariant Plug(c, cur) == t && from == Root(cur) && Linked(Above(c), cur)
      invariant Decided(c, score, key)
      invariant lb == if After(c) == [] then null else After(c)[0]
      decreases cur
    {
      DecideStep(c, cur, score, key);
      var curr := from;
      if Below(curr, score, key) {
        from, c, cur := curr.right, InR(c, cur.l, cur.n), cur.r;
      } else {
        lb := curr;
        from, c, cur := curr.left, InL(c, cur.n, cur.r), cur.l;
      }
    }
    PlugInOrder(c, Leaf);
    assert InOrder(t) == Before(c) + After(c);
    RankUnique(InOrder(t), score, key, |Before(c)|);
  }

  /** zset_delete's tree half. */
  method TreeDelete(node: AvlNode, ghost root0: AvlNode?, ghost t0: Tree) returns (root: AvlNode?, ghost t: Tree, ghost k: nat)
    requires SortedAvl(root0, t0) && node in Nodes(t0)
    modifies Nodes(t0)
    ensures SortedAvl(root, t) && Nodes(t) == Nodes(t0) - {node}
    ensures k < |InOrder(t0)| && InOrder(t0)[k] == node
    ensures InOrder(t) == InOrder(t0)[..k] + InOrder(t0)[k + 1..]
  {
    ghost var c, l, r := Focus(t0, node);
    ghost var a, b := RemoveOrder(c, l, node, r);
    k := |a|;
    root, t := AvlDel(node, c, l, r);
    RemoveNodes(t0, t, a, node, b);
  }

  lemma {:induction false} RemoveOrder(c: Ctx, l: Tree, x: AvlNode, r: Tree) returns (a: seq<AvlNode>, b: seq<AvlNode>)
    requires Sorted(InOrder(Plug(c, Node(l, x, r))))
    ensures InOrder(Plug(c, Node(l, x, r))) == a + [x] + b
    ensures a + b == Before(c) + InOrder(l) + InOrder(r) + After(c) && Sorted(a + b)
  {
    a, b := Before(c) + InOrder(l), InOrder(r) + After(c);
    PlugInOrder(c, Node(l, x, r));
    assert Before(c) + (InOrder(l) + [x] + InOrder(r)) + After(c) == a + [x] + b;
    SortedRemove(a, x, b);
  }

  lemma {:induction false} RemoveNodes(t0: Tree, t: Tree, a: seq<AvlNode>, x: AvlNode, b: seq<AvlNode>)
    requires Distinct(t0) && InOrder(t0) == a + [x] + b && InOrder(t) == a + b
    ensures Nodes(t) == Nodes(t0) - {x}
    ensures InOrder(t0)[|a|] == x && InOrder(t) == InOrder(t0)[..|a|] + InOrder(t0)[|a| + 1..]
  {
    InOrderNodes(t0);
    InOrderNodes(t);
    InOrderNoDup(t0);
    SetMinus(a, x, b);
    var s := a + [x] + b;
    assert s[|a|] == x && s[..|a|] == a && s[|a| + 1..] == b;
  }

  lemma SetMinus<T>(a: seq<T>, x: T, b: seq<T>)
    requires NoDup(a + [x] + b)
    ensures (set n | n in a + b) == (set n | n in a + [x] + b) - {x}
  {
    var s := a + [x] + b;
    assert s[|a|] == x;
    forall n | n in a ensures n in s && n != x {
      var i :| 0 <= i < |a| && a[i] == n;
      assert s[i] == n;
    }
    forall n | n in b ensures n in s && n != x {
      var i :| 0 <= i < |b| && b[i] == n;
      assert s[|a| + 1 + i] == n;
    }
  }

  // --- zset_offset ---

  /** In-order index of the node in focus. */
  ghost function Index(c: Ctx, t: Tree): nat
    requires t.Node?
  {
    |Before(c)| + Count(t.l)
  }

  lemma {:induction false} IndexIsInOrder(c: Ctx, t: Tree)
    requires t.Node?
    ensures |InOrder(Plug(c, t))| == |Before(c)| + Count(t) + |After(c)|
    ensures InOrder(Plug(c, t))[Index(c, t)] == t.n
  {
    PlugInOrder(c, t);
    InOrderNodes(t);
    InOrderNodes(t.l);
    var s := Before(c) + (InOrder(t.l) + [t.n] + InOrder(t.r)) + After(c);
    assert s[|Before(c)| + |InOrder(t.l)|] == t.n;
  }

  /** Focusing on the i-th node. */
  lemma {:induction false} FocusAt(t: Tree, i: nat) returns (c: Ctx, me: Tree)
    requires i < |InOrder(t)|
    ensures me.Node? && me.n == InOrder(t)[i] && t == Plug(c, me) && Index(c, me) == i
  {
    c, me := Top, t;
    InOrderNodes(t);
    while true
      invariant me.Node? && t == Plug(c, me)
      invariant |Before(c)| <= i < |Before(c)| + Count(me)
      decreases me
    {
      InOrderNodes(me.l);
      var k := Index(c, me);
      if i == k { break; }
      if i < k { c, me := InL(c, me.n, me.r), me.l; }
      else { c, me := InR(c, me.l, me.n), me.r; }
    }
    IndexIsInOrder(c, me);
  }

  /** Whether the node looked for lies in the subtree in focus. */
  ghost predicate Inside(c: Ctx, t: Tree, target: int) {
    |Before(c)| <= target < |Before(c)| + Count(t)
  }

  /** One step of zset_offset's climb. */
  lemma {:induction false} ClimbIndex(c: Ctx, t: Tree)
    requires t.Node? && !c.Top?
    ensures c.InL? ==> Index(c.up, Lift(c, t)) == Index(c, t) + 1 + Count(t.r)
    ensures c.InR? ==> Index(c.up, Lift(c, t)) == Index(c, t) - 1 - Count(t.l)
  {
    if c.InR? { InOrderNodes(c.l); }
  }

  /** The pointers and cached sizes one step of zset_offset reads. */
  lemma {:induction false} LocalView(c: Ctx, t: Tree)
    requires t.Node? && Avl(Root(Plug(c, t)), Plug(c, t))
    ensures t.n.left == Root(t.l) && t.n.right == Root(t.r) && t.n.parent == Above(c)
    ensures AvlSize(t.n.left) == Count(t.l) && AvlSize(t.n.right) == Count(t.r)
    ensures t.l.Node? ==> AvlSize(t.l.n.right) == Count(t.l.r)
    ensures t.r.Node? ==> AvlSize(t.r.n.left) == Count(t.r.l)
    ensures !c.Top? ==> (c.n.left == t.n <==> c.InL?)
  {
    InFocus(c, t);
    assert Linked(t.n, t.l) && Linked(t.n, t.r) && Cached(t.l) && Cached(t.r);
    assert t.l.Node? ==> Cached(t.l.r);
    assert t.r.Node? ==> Cached(t.r.l);
    if c.InR? && c.l.Node? {
      assert c.l.n in Nodes(c.l);
    }
  }

  /** The subtree in focus belongs to the node at place `k` of the whole tree. */
  ghost predicate At(t: Tree, c: Ctx, me: Tree, node: AvlNode, k: int) {
    var at := me.Node? && me.n == node && t == Plug(c, me) && Index(c, me) == k;
    at
  }

  lemma {:induction false} OffsetLeft(t: Tree, c: Ctx, me: Tree, node: AvlNode, k: int, target: int)
    requires At(t, c, me, node, k) && target < k <= target + Count(me.l)
    ensures me.Node? && me.l.Node? && At(t, InL(c, me.n, me.r), me.l, me.l.n, k - 1 - Count(me.l.r))
    ensures Inside(c, me, target) && Inside(InL(c, me.n, me.r), me.l, target) && Count(me.l) < Count(me)
  {
    InOrderNodes(me.l);
  }

  lemma {:induction false} OffsetRight(t: Tree, c: Ctx, me: Tree, node: AvlNode, k: int, target: int)
    requires At(t, c, me, node, k) && k < target <= k + Count(me.r)
    ensures me.Node? && me.r.Node? && At(t, InR(c, me.l, me.n), me.r, me.r.n, k + 1 + Count(me.r.l))
    ensures Inside(c, me, target) && Inside(InR(c, me.l, me.n), me.r, target) && Count(me.r) < Count(me)
  {
    InOrderNodes(me.l);
  }

  /** A subtree that does not hold the node looked for is left for the one above it, if there is one. */
  lemma {:induction false} OffsetUp(t: Tree, c: Ctx, me: Tree, node: AvlNode, k: int, target: int)
    requires At(t, c, me, node, k) && (target < k - Count(me.l) || target > k + Count(me.r))
    ensures !Inside(c, me, target)
    ensures c.Top? ==> !(0 <= target < |InOrder(t)|)
    ensures !c.Top? ==> At(t, c.up, Lift(c, me), c.n, if c.InL? then k + 1 + Count(me.r) else k - 1 - Count(me.l))
    ensures !c.Top? ==> Depth(c.up) < Depth(c)
  {
    InOrderNodes(me);
    if !c.Top? {
      ClimbIndex(c, me);
    }
  }

  /** zset_offset: the node `offset` places after the i-th one, or null outside the tree. */
  method Offset(znode: AvlNode, offset: int, ghost root: AvlNode?, ghost t: Tree, ghost i: nat) returns (res: AvlNode?)
    requires Avl(root, t) && i < |InOrder(t)| && InOrder(t)[i] == znode
    ensures res == if 0 <= i + offset < |InOrder(t)| then InOrder(t)[i + offset] else null
  {
    ghost var c, me := FocusAt(t, i);
    assert allocated(Nodes(t));
    var node: AvlNode := znode;
    var rank := 0;
    while rank != offset
      invariant At(t, c, me, node, i + rank)
      decreases if Inside(c, me, i + offset) then 0 else 1,
                if Inside(c, me, i + offset) then Count(me) else Depth(c)
    {
      LocalView(c, me);
      if rank > offset && rank - AvlSize(node.left) <= offset {
        OffsetLeft(t, c, me, node, i + rank, i + offset);
        node := node.left;
        rank := rank - (1 + AvlSize(node.right));
        c, me := InL(c, me.n, me.r), me.l;
      } else if rank < offset && rank + AvlSize(node.right) >= offset {
        OffsetRight(t, c, me, node, i + rank, i + offset);
        node := node.right;
        rank := rank + (1 + AvlSize(node.left));
        c, me := InR(c, me.l, me.n), me.r;
      } else {
        OffsetUp(t, c, me, node, i + rank, i + offset);
        var parent := node.parent;
        if parent == null {
          return null;
        }
        if parent.left == node {
          rank := rank + (1 + AvlSize(node.right));
        } else {
          rank := rank - (1 + AvlSize(node.left));
        }
        node := parent;
        c, me := c.up, Lift(c, me);
      }
    }
    IndexIsInOrder(c, me);
    return node;
  }
}
