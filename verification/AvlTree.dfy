/**
 The pointer-level AVL tree: rotations, the upward fix-up and deletion,
 rewriting parent, left, right, height and size in place.
 */
module AvlTree {
  import opened Seqs
  import opened Bytes
  import opened AvlShape

  ghost function Root(t: Tree): AvlNode? {
    if t.Leaf? then null else t.n
  }

  /** The nodes of `t` are linked in that shape, and the parent pointer of its root is `p`. */
  ghost predicate Linked(p: AvlNode?, t: Tree)
    reads Nodes(t)
    decreases t
  {
    match t
    case Leaf => true
    case Node(l, n, r) =>
      n.parent == p && n.left == Root(l) && n.right == Root(r) && Linked(n, l) && Linked(n, r)
  }

  /** Every cached height and size in `t` is exact. */
  ghost predicate Cached(t: Tree)
    reads Nodes(t)
  {
    match t
    case Leaf => true
    case Node(l, n, r) => n.height == Height(t) && n.size == Count(t) && Cached(l) && Cached(r)
  }

  function AvlSize(node: AvlNode?): nat
    reads if node == null then {} else {node}
  {
    if node == null then 0 else node.size
  }

  function AvlHeight(node: AvlNode?, ghost p: AvlNode?, ghost t: Tree): (h: nat)
    requires node == Root(t) && Linked(p, t)
    reads Nodes(t)
    ensures h == Height(t)
    decreases t
  {
    if node == null then 0
    else
      var a := AvlHeight(node.left, node, t.l);
      var b := AvlHeight(node.right, node, t.r);
      1 + (if a > b then a else b)
  }

  method UpdateNode(node: AvlNode, ghost p: AvlNode?, ghost t: Tree)
    requires node == Root(t) && Linked(p, t) && Distinct(t)
    requires Cached(t.l) && Cached(t.r)
    modifies node`height, node`size
    ensures Linked(p, t) && Cached(t)
  {
    var a := AvlHeight(node.left, node, t.l);
    var b := AvlHeight(node.right, node, t.r);
    node.height := 1 + (if a > b then a else b);
    node.size := 1 + AvlSize(node.left) + AvlSize(node.right);
  }

  /** Redirects the parent pointer of a subtree's root. */
  method Adopt(child: AvlNode?, parent: AvlNode?, ghost p: AvlNode?, ghost t: Tree)
    requires child == Root(t) && Linked(p, t) && Distinct(t) && Cached(t)
    modifies if child == null then {} else {child}`parent
    ensures Linked(parent, t) && Cached(t)
  {
    if child != null {
      child.parent := parent;
    }
  }

  /** Three exact subtrees, each under its own parent. */
  ghost predicate Hanging(p: AvlNode, a: Tree, q: AvlNode, b: Tree, r: AvlNode, d: Tree)
    reads Nodes(a), Nodes(b), Nodes(d)
  {
    var all := Linked(p, a) && Linked(q, b) && Linked(r, d) && Cached(a) && Cached(b) && Cached(d);
    all
  }

  /** The pointer updates of rotate_left: `y` rises above `curr`. */
  method LiftRight(curr: AvlNode, ghost a: Tree, ghost b: Tree, ghost y: AvlNode, ghost d: Tree) returns (root: AvlNode)
    requires curr.right == y && y.left == Root(b) && curr != y
    requires {curr, y} !! Nodes(a) && {curr, y} !! Nodes(b) && {curr, y} !! Nodes(d)
    requires Nodes(b) !! Nodes(a) && Nodes(b) !! Nodes(d) && Distinct(b)
    requires Hanging(curr, a, y, b, y, d)
    modifies {curr, y} + Nodes(b)
    ensures root == y && curr.right == Root(b) && y.left == curr && y.parent == old(curr.parent) && curr.parent == y
    ensures curr.left == old(curr.left) && y.right == old(y.right)
    ensures Hanging(curr, a, curr, b, y, d)
  {
    root := curr.right;
    var inner := root.left;
    curr.right, root.left, root.parent, curr.parent := inner, curr, curr.parent, root;
    assert b.Node? ==> b.n in Nodes(b);
    assert allocated(Nodes(a)) && allocated(Nodes(d));
    Adopt(inner, curr, y, b);
  }

  method RotateLeft(curr: AvlNode, ghost p: AvlNode?, ghost a: Tree, ghost b: Tree, ghost y: AvlNode, ghost d: Tree)
    returns (root: AvlNode)
    requires Linked(p, Node(a, curr, Node(b, y, d))) && Distinct(Node(a, curr, Node(b, y, d)))
    requires Cached(a) && Cached(b) && Cached(d)
    modifies {curr, y} + Nodes(b)
    ensures root == y
    ensures Linked(p, Node(Node(a, curr, b), y, d)) && Cached(Node(Node(a, curr, b), y, d))
  {
    RotLKeeps(a, curr, b, y, d);
    assert Linked(curr, Node(b, y, d)) && Distinct(Node(b, y, d));
    root := LiftRight(curr, a, b, y, d);
    ghost var low := Node(a, curr, b);
    assert allocated(Nodes(d));
    UpdateNode(curr, root, low);
    UpdateNode(root, p, Node(low, root, d));
  }

  /** The pointer updates of rotate_right: `x` rises above `curr`. */
  method LiftLeft(curr: AvlNode, ghost a: Tree, ghost x: AvlNode, ghost b: Tree, ghost d: Tree) returns (root: AvlNode)
    requires curr.left == x && x.right == Root(b) && curr != x
    requires {curr, x} !! Nodes(a) && {curr, x} !! Nodes(b) && {curr, x} !! Nodes(d)
    requires Nodes(b) !! Nodes(a) && Nodes(b) !! Nodes(d) && Distinct(b)
    requires Hanging(x, a, x, b, curr, d)
    modifies {curr, x} + Nodes(b)
    ensures root == x && curr.left == Root(b) && x.right == curr && x.parent == old(curr.parent) && curr.parent == x
    ensures curr.right == old(curr.right) && x.left == old(x.left)
    ensures Hanging(x, a, curr, b, curr, d)
  {
    root := curr.left;
    var inner := root.right;
    curr.left, root.right, root.parent, curr.parent := root.right, curr, curr.parent, root;
    assert b.Node? ==> b.n in Nodes(b);
    assert allocated(Nodes(a)) && allocated(Nodes(d));
    Adopt(inner, curr, x, b);
  }

  method RotateRight(curr: AvlNode, ghost p: AvlNode?, ghost a: Tree, ghost x: AvlNode, ghost b: Tree, ghost d: Tree)
    returns (root: AvlNode)
    requires Linked(p, Node(Node(a, x, b), curr, d)) && Distinct(Node(Node(a, x, b), curr, d))
    requires Cached(a) && Cached(b) && Cached(d)
    modifies {curr, x} + Nodes(b)
    ensures root == x
    ensures Linked(p, Node(a, x, Node(b, curr, d))) && Cached(Node(a, x, Node(b, curr, d)))
  {
    RotLKeeps(a, x, b, curr, d);
    assert Linked(curr, Node(a, x, b)) && Distinct(Node(a, x, b));
    root := LiftLeft(curr, a, x, b, d);
    ghost var low := Node(b, curr, d);
    assert allocated(Nodes(a));
    UpdateNode(curr, root, low);
    UpdateNode(root, p, Node(a, root, low));
  }

  method SetLeft(node: AvlNode, child: AvlNode, ghost p: AvlNode?, ghost l: Tree, ghost r: Tree)
    requires node.parent == p && child == Root(l) && node.right == Root(r) && node !in Nodes(l) && node !in Nodes(r)
    requires Linked(node, l) && Linked(node, r) && Cached(l) && Cached(r)
    modifies node`left
    ensures Linked(p, Node(l, node, r)) && Cached(l) && Cached(r)
  {
    node.left := child;
  }

  method SetRight(node: AvlNode, child: AvlNode, ghost p: AvlNode?, ghost l: Tree, ghost r: Tree)
    requires node.parent == p && node.left == Root(l) && child == Root(r) && node !in Nodes(l) && node !in Nodes(r)
    requires Linked(node, l) && Linked(node, r) && Cached(l) && Cached(r)
    modifies node`right
    ensures Linked(p, Node(l, node, r)) && Cached(l) && Cached(r)
  {
    node.right := child;
  }

  /** The inner rotation of a left-right case: `node->left = rotate_left(node->left)`. */
  method TurnLeftChild(node: AvlNode, ghost p: AvlNode?, ghost u: Tree, ghost r: Tree)
    requires u.Node? && u.r.Node?
    requires node.parent == p && node.left == u.n && node.right == Root(r)
    requires Linked(node, u) && Linked(node, r) && Cached(u) && Cached(r)
    requires Distinct(u) && node !in Nodes(u) && node !in Nodes(r) && Nodes(u) !! Nodes(r)
    modifies Nodes(u) + {node}
    ensures Linked(p, Node(RotL(u), node, r)) && Cached(RotL(u)) && Cached(r)
  {
    assert allocated(Nodes(r));
    assert Cached(u.r);
    var low := RotateLeft(node.left, node, u.l, u.r.l, u.r.n, u.r.r);
    RotLKeeps(u.l, u.n, u.r.l, u.r.n, u.r.r);
    SetLeft(node, low, p, RotL(u), r);
  }

  /** The inner rotation of a right-left case. */
  method TurnRightChild(node: AvlNode, ghost p: AvlNode?, ghost l: Tree, ghost u: Tree)
    requires u.Node? && u.l.Node?
    requires node.parent == p && node.left == Root(l) && node.right == u.n
    requires Linked(node, l) && Linked(node, u) && Cached(l) && Cached(u)
    requires Distinct(u) && node !in Nodes(u) && node !in Nodes(l) && Nodes(u) !! Nodes(l)
    modifies Nodes(u) + {node}
    ensures Linked(p, Node(l, node, RotR(u))) && Cached(l) && Cached(RotR(u))
  {
    assert allocated(Nodes(l));
    assert Cached(u.l);
    var low := RotateRight(node.right, node, u.l.l, u.l.n, u.l.r, u.r);
    RotLKeeps(u.l.l, u.l.n, u.l.r, u.n, u.r);
    SetRight(node, low, p, l, RotR(u));
  }

  method FixLeft(node: AvlNode, ghost p: AvlNode?, ghost t: Tree) returns (top: AvlNode)
    requires node == Root(t) && Linked(p, t) && Distinct(t) && Cached(t.l) && Cached(t.r)
    requires Height(t.l) == Height(t.r) + 2
    modifies Nodes(t)
    ensures top == Root(Rebalance(t)) && Linked(p, Rebalance(t)) && Cached(Rebalance(t))
  {
    ghost var u := t.l;
    assert Linked(node, u) && Distinct(u);
    if AvlHeight(node.left.left, node.left, u.l) < AvlHeight(node.left.right, node.left, u.r) {
      RotLKeeps(u.l, u.n, u.r.l, u.r.n, u.r.r);
      TurnLeftChild(node, p, u, t.r);
      u := RotL(u);
    }
    top := RotateRight(node, p, u.l, u.n, u.r, t.r);
  }

  method FixRight(node: AvlNode, ghost p: AvlNode?, ghost t: Tree) returns (top: AvlNode)
    requires node == Root(t) && Linked(p, t) && Distinct(t) && Cached(t.l) && Cached(t.r)
    requires Height(t.r) == Height(t.l) + 2
    modifies Nodes(t)
    ensures top == Root(Rebalance(t)) && Linked(p, Rebalance(t)) && Cached(Rebalance(t))
  {
    ghost var u := t.r;
    assert Linked(node, u) && Distinct(u);
    if AvlHeight(node.right.right, node.right, u.r) < AvlHeight(node.right.left, node.right, u.l) {
      RotLKeeps(u.l.l, u.l.n, u.l.r, u.n, u.r);
      TurnRightChild(node, p, t.l, u);
      u := RotR(u);
    }
    top := RotateLeft(node, p, t.l, u.l, u.n, u.r);
  }

  /** The pointer stored at the hole of `c`. */
  ghost function HolePtr(c: Ctx): AvlNode?
    requires !c.Top?
    reads c.n
  {
    if c.InL? then c.n.left else c.n.right
  }

  /** The links of the context, except for the pointer stored at its hole. */
  ghost predicate Spine(c: Ctx)
    reads CtxNodes(c)
  {
    match c
    case Top => true
    case InL(up, n, r) =>
      n.right == Root(r) && Linked(n, r) && n.parent == Above(up) && Spine(up) && (!up.Top? ==> HolePtr(up) == n)
    case InR(up, l, n) =>
      n.left == Root(l) && Linked(n, l) && n.parent == Above(up) && Spine(up) && (!up.Top? ==> HolePtr(up) == n)
  }

  /** The subtrees hanging off the spine are exact; the spine itself may be stale. */
  ghost predicate SidesCached(c: Ctx)
    reads CtxNodes(c)
  {
    match c
    case Top => true
    case InL(up, _, r) => Cached(r) && SidesCached(up)
    case InR(up, l, _) => Cached(l) && SidesCached(up)
  }

  /** One turn of avl_fix's loop before it moves to the parent. */
  method FixNode(node: AvlNode, ghost p: AvlNode?, ghost t: Tree) returns (top: AvlNode)
    requires node == Root(t) && Linked(p, t) && Distinct(t) && Cached(t.l) && Cached(t.r)
    modifies Nodes(t)
    ensures top == Root(Rebalance(t)) && Linked(p, Rebalance(t)) && Cached(Rebalance(t))
  {
    var left := AvlHeight(node.left, node, t.l);
    var right := AvlHeight(node.right, node, t.r);
    UpdateNode(node, p, t);
    top := node;
    if left == right + 2 {
      top := FixLeft(node, p, t);
    } else if right == left + 2 {
      top := FixRight(node, p, t);
    }
  }

  /** Where avl_fix stands: below the focus everything is linked and exact, above it the links are right. */
  ghost predicate Climbing(c: Ctx, t: Tree)
    reads CtxNodes(c) + Nodes(t)
  {
    var climbing :=
      && t.Node? && Linked(Above(c), t) && Cached(t.l) && Cached(t.r)
      && Spine(c) && SidesCached(c) && (!c.Top? ==> HolePtr(c) == t.n)
      && CtxDistinct(c) && Distinct(t) && CtxNodes(c) !! Nodes(t);
    climbing
  }

  method HangLeft(parent: AvlNode, child: AvlNode?, ghost up: Ctx, ghost t: Tree, ghost r: Tree)
    requires parent.right == Root(r) && parent.parent == Above(up) && Spine(up) && (!up.Top? ==> HolePtr(up) == parent)
    requires child == Root(t) && Linked(parent, t) && Linked(parent, r) && Cached(t) && Cached(r) && SidesCached(up)
    requires CtxDistinct(up) && Distinct(t) && Distinct(r) && parent !in CtxNodes(up) + Nodes(t) + Nodes(r)
    requires Nodes(t) !! Nodes(r) && CtxNodes(up) !! Nodes(t) + Nodes(r)
    modifies parent
    ensures Climbing(up, Node(t, parent, r))
  {
    parent.left := child;
    assert Linked(parent, t) && Linked(parent, r);
  }

  method HangRight(parent: AvlNode, child: AvlNode?, ghost up: Ctx, ghost l: Tree, ghost t: Tree)
    requires parent.left == Root(l) && parent.parent == Above(up) && Spine(up) && (!up.Top? ==> HolePtr(up) == parent)
    requires child == Root(t) && Linked(parent, t) && Linked(parent, l) && Cached(t) && Cached(l) && SidesCached(up)
    requires CtxDistinct(up) && Distinct(t) && Distinct(l) && parent !in CtxNodes(up) + Nodes(t) + Nodes(l)
    requires Nodes(t) !! Nodes(l) && CtxNodes(up) !! Nodes(t) + Nodes(l)
    modifies parent
    ensures Climbing(up, Node(l, parent, t))
  {
    parent.right := child;
    assert Linked(parent, t) && Linked(parent, l);
  }

  /** Stores `child` at the hole, through the link that led to the old child. */
  method Reattach(parent: AvlNode, fromLeft: bool, child: AvlNode?, ghost c: Ctx, ghost t: Tree)
    requires !c.Top? && parent == c.n && (fromLeft <==> c.InL?) && child == Root(t)
    requires Spine(c) && SidesCached(c) && CtxDistinct(c)
    requires Linked(parent, t) && Cached(t) && CtxNodes(c) !! Nodes(t) && Distinct(t)
    modifies parent
    ensures Climbing(c.up, Lift(c, t))
  {
    if fromLeft {
      HangLeft(parent, child, c.up, t, c.r);
    } else {
      HangRight(parent, child, c.up, c.l, t);
    }
  }

  /** One whole turn of avl_fix's loop. */
  method FixStep(start: AvlNode, ghost c: Ctx, ghost t: Tree) returns (node: AvlNode, parent: AvlNode?)
    requires Climbing(c, t) && start == t.n
    modifies CtxNodes(c) + Nodes(t)
    ensures parent == Above(c)
    ensures c.Top? ==> node == Root(Rebalance(t)) && Linked(null, Rebalance(t)) && Cached(Rebalance(t))
    ensures !c.Top? ==> Climbing(c.up, Lift(c, Rebalance(t)))
    ensures !c.Top? ==> CtxNodes(c.up) + Nodes(Lift(c, Rebalance(t))) == CtxNodes(c) + Nodes(t)
  {
    parent := start.parent;
    var fromLeft := parent != null && parent.left == start;
    RebalanceKeeps(t);
    assert allocated(CtxNodes(c));
    node := FixNode(start, parent, t);
    if parent != null {
      Reattach(parent, fromLeft, node, c, Rebalance(t));
    }
  }

  method AvlFix(start: AvlNode, ghost c: Ctx, ghost t: Tree) returns (root: AvlNode)
    requires Climbing(c, t) && start == t.n
    modifies CtxNodes(c) + Nodes(t)
    ensures root == Root(FixUp(c, t)) && Linked(null, FixUp(c, t)) && Cached(FixUp(c, t))
  {
    var node: AvlNode := start;
    ghost var cc, tt := c, t;
    while true
      invariant Climbing(cc, tt) && node == tt.n
      invariant CtxNodes(cc) + Nodes(tt) == CtxNodes(c) + Nodes(t)
      invariant FixUp(cc, tt) == FixUp(c, t)
      decreases cc
    {
      var top, parent := FixStep(node, cc, tt);
      if parent == null {
        return top;
      }
      node, tt, cc := parent, Lift(cc, Rebalance(tt)), cc.up;
    }
  }

  // --- deletion ---

  /** A complete AVL tree of shape `t` rooted at `root`. */
  ghost predicate Avl(root: AvlNode?, t: Tree)
    reads Nodes(t)
  {
    root == Root(t) && Linked(null, t) && Cached(t) && Balanced(t) && Distinct(t)
  }

  /** The spine is exact when the hole holds a tree of height `h` and `k` nodes. */
  ghost predicate SpineCached(c: Ctx, h: nat, k: nat)
    reads CtxNodes(c)
  {
    match c
    case Top => true
    case InL(up, n, r) =>
      var h1, k1 := 1 + Max(h, Height(r)), 1 + k + Count(r);
      n.height == h1 && n.size == k1 && Cached(r) && SpineCached(up, h1, k1)
    case InR(up, l, n) =>
      var h1, k1 := 1 + Max(Height(l), h), 1 + Count(l) + k;
      n.height == h1 && n.size == k1 && Cached(l) && SpineCached(up, h1, k1)
  }

  lemma {:induction false} LinkedPlug(c: Ctx, t: Tree)
    requires Linked(null, Plug(c, t))
    ensures Spine(c) && Linked(Above(c), t) && (!c.Top? ==> HolePtr(c) == Root(t))
  {
    if !c.Top? { LinkedPlug(c.up, Lift(c, t)); }
  }

  lemma {:induction false} LinkedUnplug(c: Ctx, t: Tree)
    requires Spine(c) && Linked(Above(c), t) && (!c.Top? ==> HolePtr(c) == Root(t))
    ensures Linked(null, Plug(c, t))
  {
    if !c.Top? {
      assert Linked(Above(c.up), Lift(c, t));
      LinkedUnplug(c.up, Lift(c, t));
    }
  }

  lemma {:induction false} CachedPlug(c: Ctx, t: Tree)
    requires Cached(Plug(c, t))
    ensures Cached(t) && SpineCached(c, Height(t), Count(t))
  {
    match c
    case Top =>
    case InL(up, n, r) =>
      CachedPlug(up, Node(t, n, r));
    case InR(up, l, n) =>
      CachedPlug(up, Node(l, n, t));
  }

  lemma {:induction false} CachedUnplug(c: Ctx, t: Tree)
    requires Cached(t) && SpineCached(c, Height(t), Count(t))
    ensures Cached(Plug(c, t))
  {
    if !c.Top? {
      CachedLift(c, t);
      CachedUnplug(c.up, Lift(c, t));
    }
  }

  lemma {:induction false} CachedLift(c: Ctx, t: Tree)
    requires !c.Top? && Cached(t) && SpineCached(c, Height(t), Count(t))
    ensures Cached(Lift(c, t)) && SpineCached(c.up, Height(Lift(c, t)), Count(Lift(c, t)))
  {
  }

  lemma {:induction false} SpineSides(c: Ctx, h: nat, k: nat)
    requires SpineCached(c, h, k)
    ensures SidesCached(c)
  {
    if !c.Top? {
      SpineSides(c.up, 1 + Max(h, Height(Side(c))), 1 + k + Count(Side(c)));
    }
  }

  lemma {:induction false} RootPlug(c: Ctx, t: Tree, u: Tree)
    ensures !c.Top? ==> Root(Plug(c, t)) == Root(Plug(c, u))
  {
    if !c.Top? { RootPlug(c.up, Lift(c, t), Lift(c, u)); }
  }

  /** What a complete tree says about the place in focus. */
  lemma {:induction false} InFocus(c: Ctx, t: Tree)
    requires Linked(null, Plug(c, t)) && Cached(Plug(c, t)) && Distinct(Plug(c, t))
    ensures Spine(c) && SpineCached(c, Height(t), Count(t)) && SidesCached(c)
    ensures Linked(Above(c), t) && Cached(t) && (!c.Top? ==> HolePtr(c) == Root(t))
    ensures CtxDistinct(c) && Distinct(t) && CtxNodes(c) !! Nodes(t)
    ensures Nodes(Plug(c, t)) == CtxNodes(c) + Nodes(t)
  {
    LinkedPlug(c, t);
    CachedPlug(c, t);
    SpineSides(c, Height(t), Count(t));
    PlugNodes(c, t);
  }

  /** The result of cutting out a node with at most one child. */
  ghost function Cut(c: Ctx, child: Tree): Tree {
    if c.Top? then child else FixUp(c.up, Lift(c, child))
  }

  lemma {:induction false} CutCorrect(c: Ctx, l: Tree, x: AvlNode, r: Tree, child: Tree)
    requires Balanced(Plug(c, Node(l, x, r))) && Distinct(Plug(c, Node(l, x, r)))
    requires l.Leaf? || r.Leaf?
    requires child == if l.Leaf? then r else l
    ensures Balanced(Cut(c, child)) && Distinct(Cut(c, child))
    ensures InOrder(Cut(c, child)) == Before(c) + InOrder(l) + InOrder(r) + After(c)
    ensures Nodes(Cut(c, child)) == CtxNodes(c) + Nodes(child)
  {
    var t := Node(l, x, r);
    PlugBalanced(c, t);
    PlugNodes(c, t);
    OnlyChild(l, x, r, child);
    CutTree(c, child, Height(t));
    Seqs.Assoc(Before(c), InOrder(l), InOrder(r));
  }

  lemma {:induction false} OnlyChild(l: Tree, x: AvlNode, r: Tree, child: Tree)
    requires l.Leaf? || r.Leaf?
    requires child == if l.Leaf? then r else l
    ensures InOrder(child) == InOrder(l) + InOrder(r) && Near(Height(child), Height(Node(l, x, r)))
  {
  }

  lemma {:induction false} CutTree(c: Ctx, child: Tree, h: nat)
    requires CtxBalanced(c, h) && Balanced(child) && Near(Height(child), h)
    requires CtxDistinct(c) && Distinct(child) && CtxNodes(c) !! Nodes(child)
    ensures Balanced(Cut(c, child)) && Distinct(Cut(c, child))
    ensures InOrder(Cut(c, child)) == Before(c) + InOrder(child) + After(c)
    ensures Nodes(Cut(c, child)) == CtxNodes(c) + Nodes(child)
  {
    if !c.Top? {
      var u := Lift(c, child);
      StepUp(c, child, h);
      PlugNodes(c, child);
      FixUpCorrect(c.up, u, 1 + Max(h, Height(Side(c))));
      PlugInOrder(c, child);
      PlugInOrder(c.up, u);
      PlugNodes(c.up, u);
    }
  }

  /** The body of del_simple: the only child takes the node's place, then the climb starts at the parent. */
  method Unhook(node: AvlNode, ghost c: Ctx, ghost kid: Tree) returns (root: AvlNode?)
    requires (if node.left != null then node.left else node.right) == Root(kid)
    requires node.parent == Above(c) && (!c.Top? ==> HolePtr(c) == node)
    requires Spine(c) && SidesCached(c) && CtxDistinct(c)
    requires Linked(node, kid) && Cached(kid) && Distinct(kid)
    requires CtxNodes(c) !! Nodes(kid) && node !in CtxNodes(c) + Nodes(kid)
    modifies CtxNodes(c) + Nodes(kid)
    ensures root == Root(Cut(c, kid)) && Linked(null, Cut(c, kid)) && Cached(Cut(c, kid))
  {
    var parent := node.parent;
    var child := if node.left != null then node.left else node.right;
    assert allocated(CtxNodes(c));
    assert kid.Node? ==> child in Nodes(kid);
    Adopt(child, parent, node, kid);
    if parent == null {
      return child;
    }
    assert c.InR? ==> parent.left == Root(c.l) && (c.l.Node? ==> c.l.n in Nodes(c.l));
    Reattach(parent, parent.left == node, child, c, kid);
    root := AvlFix(parent, c.up, Lift(c, kid));
  }

  method DelSimple(node: AvlNode, ghost c: Ctx, ghost l: Tree, ghost r: Tree) returns (root: AvlNode?, ghost t: Tree)
    requires l.Leaf? || r.Leaf?
    requires Avl(Root(Plug(c, Node(l, node, r))), Plug(c, Node(l, node, r)))
    modifies Nodes(Plug(c, Node(l, node, r)))
    ensures Avl(root, t)
    ensures InOrder(t) == Before(c) + InOrder(l) + InOrder(r) + After(c)
    ensures Nodes(t) == CtxNodes(c) + Nodes(l) + Nodes(r)
  {
    ghost var kid := if l.Leaf? then r else l;
    InFocus(c, Node(l, node, r));
    CutCorrect(c, l, node, r, kid);
    t := Cut(c, kid);
    root := Unhook(node, c, kid);
  }

  lemma {:induction false} LeftStep(c: Ctx, t: Tree)
    requires t.Node?
    ensures InOrder(t.l) + After(InL(c, t.n, t.r)) == InOrder(t) + After(c)
  {
    assert InOrder(t.l) + ([t.n] + InOrder(t.r) + After(c)) == (InOrder(t.l) + [t.n] + InOrder(t.r)) + After(c);
  }

  /** The successor walk of avl_del: the leftmost node of the right subtree, in focus. */
  method Successor(node: AvlNode, ghost c: Ctx, ghost l: Tree, ghost r: Tree)
    returns (victim: AvlNode, ghost cv: Ctx, ghost rv: Tree)
    requires r.Node? && node.right == r.n && Linked(node, r)
    ensures Plug(cv, Node(Leaf, victim, rv)) == Plug(c, Node(l, node, r))
    ensures Before(cv) == Before(c) + InOrder(l) + [node]
    ensures InOrder(r) + After(c) == [victim] + InOrder(rv) + After(cv)
  {
    victim := node.right;
    cv := InR(c, l, node);
    ghost var t := r;
    while victim.left != null
      invariant t.Node? && victim == t.n && Linked(Above(cv), t)
      invariant Plug(cv, t) == Plug(c, Node(l, node, r))
      invariant Before(cv) == Before(c) + InOrder(l) + [node]
      invariant InOrder(r) + After(c) == InOrder(t) + After(cv)
      decreases t
    {
      LeftStep(cv, t);
      victim := victim.left;
      cv, t := InL(cv, t.n, t.r), t.l;
    }
    rv := t.r;
    assert t == Node(Leaf, victim, rv);
  }

  /** Overwrites the hole's occupant by `node`, through the link that led to the occupant. */
  method PutAtHole(parent: AvlNode, occupant: AvlNode, node: AvlNode, ghost c: Ctx, ghost h: nat, ghost k: nat)
    requires !c.Top? && parent == c.n && HolePtr(c) == occupant && occupant !in CtxNodes(c)
    requires Spine(c) && SpineCached(c, h, k) && CtxDistinct(c)
    modifies parent
    ensures Spine(c) && SpineCached(c, h, k) && HolePtr(c) == node
  {
    if parent.left == occupant {
      parent.left := node;
    } else {
      parent.right := node;
    }
  }

  /** `*victim = *to_delete` and the two parent updates below it. */
  method CopyNode(victim: AvlNode, node: AvlNode, ghost p: AvlNode?, ghost l: Tree, ghost r: Tree)
    requires Linked(p, Node(l, node, r)) && Cached(Node(l, node, r)) && Distinct(Node(l, node, r))
    requires victim !in Nodes(Node(l, node, r))
    modifies Nodes(l) + Nodes(r) + {victim}
    ensures Linked(p, Node(l, victim, r)) && Cached(Node(l, victim, r))
  {
    victim.parent, victim.left, victim.right := node.parent, node.left, node.right;
    victim.height, victim.size := node.height, node.size;
    assert allocated(Nodes(l)) && allocated(Nodes(r));
    AdoptBoth(victim, node, l, r);
  }

  method AdoptBoth(victim: AvlNode, ghost node: AvlNode, ghost l: Tree, ghost r: Tree)
    requires victim.left == Root(l) && victim.right == Root(r) && victim !in Nodes(l) && victim !in Nodes(r)
    requires Linked(node, l) && Linked(node, r) && Cached(l) && Cached(r)
    requires Distinct(l) && Distinct(r) && Nodes(l) !! Nodes(r)
    modifies Nodes(l)`parent, Nodes(r)`parent
    ensures Linked(victim, l) && Linked(victim, r) && Cached(l) && Cached(r)
  {
    assert allocated(Nodes(l)) && allocated(Nodes(r));
    assert (l.Node? ==> l.n in Nodes(l)) && (r.Node? ==> r.n in Nodes(r));
    Adopt(victim.left, victim, node, l);
    Adopt(victim.right, victim, node, r);
  }

  /** Attaches `victim`, root of `you`, where `node` used to hang. */
  method Install(victim: AvlNode, node: AvlNode, oldRoot: AvlNode?, ghost c: Ctx, ghost you: Tree)
    returns (root: AvlNode?)
    requires victim == Root(you) && Linked(Above(c), you) && Cached(you) && victim.parent == Above(c)
    requires Spine(c) && SpineCached(c, Height(you), Count(you)) && CtxDistinct(c)
    requires CtxNodes(c) !! Nodes(you) && node !in CtxNodes(c)
    requires !c.Top? ==> HolePtr(c) == node && oldRoot == Root(Plug(c, you))
    modifies CtxNodes(c)
    ensures root == Root(Plug(c, you)) && Linked(null, Plug(c, you)) && Cached(Plug(c, you))
  {
    root := oldRoot;
    var parent := victim.parent;
    assert allocated(Nodes(you));
    if parent == null {
      root := victim;
    } else {
      PutAtHole(parent, node, victim, c, Height(you), Count(you));
    }
    LinkedUnplug(c, you);
    CachedUnplug(c, you);
  }

  /** avl_del's second half: `victim`, outside the tree, takes over the place of `node`. */
  method TakeOver(victim: AvlNode, node: AvlNode, oldRoot: AvlNode?, ghost c: Ctx, ghost me: Tree, ghost you: Tree)
    returns (root: AvlNode?)
    requires me.Node? && me.n == node && you == me.(n := victim)
    requires Spine(c) && SpineCached(c, Height(you), Count(you)) && CtxDistinct(c)
    requires Linked(Above(c), me) && Cached(me) && Distinct(me)
    requires CtxNodes(c) !! Nodes(me) && victim !in CtxNodes(c) + Nodes(me)
    requires CtxNodes(c) !! Nodes(you) && node !in CtxNodes(c)
    requires !c.Top? ==> HolePtr(c) == node && oldRoot == Root(Plug(c, you))
    modifies CtxNodes(c) + Nodes(me) + {victim}
    ensures root == Root(Plug(c, you)) && Linked(null, Plug(c, you)) && Cached(Plug(c, you))
  {
    assert allocated(CtxNodes(c));
    CopyNode(victim, node, Above(c), me.l, me.r);
    root := Install(victim, node, oldRoot, c, you);
  }

  method AvlDel(node: AvlNode, ghost c: Ctx, ghost l: Tree, ghost r: Tree) returns (root: AvlNode?, ghost t: Tree)
    requires Avl(Root(Plug(c, Node(l, node, r))), Plug(c, Node(l, node, r)))
    modifies Nodes(Plug(c, Node(l, node, r)))
    ensures Avl(root, t)
    ensures InOrder(t) == Before(c) + InOrder(l) + InOrder(r) + After(c)
  {
    InFocus(c, Node(l, node, r));
    if node.left == null || node.right == null {
      root, t := DelSimple(node, c, l, r);
    } else {
      root, t := DelInner(node, c, l, r);
    }
  }

  /** avl_del with two children. */
  method DelInner(node: AvlNode, ghost c: Ctx, ghost l: Tree, ghost r: Tree) returns (root: AvlNode?, ghost t: Tree)
    requires r.Node? && Avl(Root(Plug(c, Node(l, node, r))), Plug(c, Node(l, node, r)))
    requires node.right == r.n && Linked(node, r)
    modifies Nodes(Plug(c, Node(l, node, r)))
    ensures Avl(root, t)
    ensures InOrder(t) == Before(c) + InOrder(l) + InOrder(r) + After(c)
  {
    ghost var whole := Plug(c, Node(l, node, r));
    assert allocated(Nodes(whole));
    var victim, cv, rv := Successor(node, c, l, r);
    ghost var t1;
    root, t1 := DelSimple(victim, cv, Leaf, rv);
    ghost var a, b := Before(c) + InOrder(l), InOrder(rv) + After(cv);
    Regroup(Before(cv), a, InOrder(rv), After(cv), InOrder(r), After(c), node, victim);
    PlugNodes(cv, Node(Leaf, victim, rv));
    root, t := Replace(victim, node, root, t1, a, b);
  }

  lemma Regroup<T>(bv: seq<T>, a: seq<T>, rv: seq<T>, av: seq<T>, r: seq<T>, z: seq<T>, x: T, y: T)
    requires bv == a + [x] && r + z == [y] + rv + av
    ensures bv + [] + rv + av == a + [x] + (rv + av)
    ensures a + [y] + (rv + av) == a + r + z
  {
    assert a + [y] + (rv + av) == a + ([y] + rv + av);
    assert a + r + z == a + (r + z);
  }

  /** Lines 139-157: `victim`, outside the tree, takes over wherever the first fix-up has moved `node`. */
  method Replace(victim: AvlNode, node: AvlNode, oldRoot: AvlNode?, ghost t1: Tree,
                 ghost a: seq<AvlNode>, ghost b: seq<AvlNode>)
    returns (root: AvlNode?, ghost t: Tree)
    requires Avl(oldRoot, t1) && InOrder(t1) == a + [node] + b && victim !in Nodes(t1)
    modifies Nodes(t1) + {victim}
    ensures Avl(root, t) && InOrder(t) == a + [victim] + b
  {
    ghost var c, me := FindAndSwap(t1, node, victim, a, b);
    InFocus(c, me);
    Renamed(c, me, victim);
    t := Plug(c, me.(n := victim));
    root := TakeOver(victim, node, oldRoot, c, me, me.(n := victim));
    root := Settle(root, t);
  }

  /** The closing avl_fix(root): on a balanced tree it changes no link. */
  method Settle(top: AvlNode?, ghost t: Tree) returns (root: AvlNode?)
    requires t.Node? && Avl(top, t)
    modifies Nodes(t)
    ensures Avl(root, t)
  {
    RebalanceBalances(t);
    root := AvlFix(top, Top, t);
  }

  /** Replacing one node reference in focus changes nothing else about the shape. */
  lemma {:induction false} Renamed(c: Ctx, me: Tree, x: AvlNode)
    requires me.Node? && Distinct(Plug(c, me)) && Balanced(Plug(c, me)) && x !in Nodes(Plug(c, me))
    ensures var you := me.(n := x);
      && Height(you) == Height(me) && Count(you) == Count(me)
      && CtxNodes(c) !! Nodes(you) && Plug(c, you).Node? && Nodes(Plug(c, you)) <= Nodes(Plug(c, me)) + {x}
      && Distinct(Plug(c, you)) && Balanced(Plug(c, you))
      && (!c.Top? ==> Root(Plug(c, you)) == Root(Plug(c, me)))
  {
    var you := me.(n := x);
    PlugNodes(c, me);
    PlugNodes(c, you);
    PlugBalanced(c, me);
    PlugBalanced(c, you);
    RootPlug(c, me, you);
    PlugIsNode(c, you);
  }

  lemma {:induction false} PlugIsNode(c: Ctx, t: Tree)
    requires t.Node?
    ensures Plug(c, t).Node?
  {
    if !c.Top? { PlugIsNode(c.up, Lift(c, t)); }
  }

  /** `node` can be found in the repaired tree, and renaming it there swaps just that element. */
  lemma {:induction false} FindAndSwap(t: Tree, x: AvlNode, y: AvlNode, a: seq<AvlNode>, b: seq<AvlNode>)
    returns (c: Ctx, me: Tree)
    requires Distinct(t) && InOrder(t) == a + [x] + b
    ensures me.Node? && me.n == x && t == Plug(c, me)
    ensures InOrder(Plug(c, me.(n := y))) == a + [y] + b
  {
    assert (a + [x] + b)[|a|] == x;
    InOrderNodes(t);
    var l, r;
    c, l, r := Focus(t, x);
    me := Node(l, x, r);
    InOrderNoDup(t);
    SwapOrder(c, l, r, x, y, a, b);
  }

  lemma {:induction false} SwapOrder(c: Ctx, l: Tree, r: Tree, x: AvlNode, y: AvlNode, a: seq<AvlNode>, b: seq<AvlNode>)
    requires InOrder(Plug(c, Node(l, x, r))) == a + [x] + b && NoDup(a + [x] + b)
    ensures InOrder(Plug(c, Node(l, y, r))) == a + [y] + b
  {
    PlugInOrder(c, Node(l, x, r));
    PlugInOrder(c, Node(l, y, r));
    var a1, b1 := Before(c) + InOrder(l), InOrder(r) + After(c);
    Splice(Before(c), InOrder(l), x, InOrder(r), After(c));
    Splice(Before(c), InOrder(l), y, InOrder(r), After(c));
    SplitUnique(a, x, b, a1, b1);
  }
}
