/**
 Shapes of the AVL tree: a ghost tree of node references, the zipper context
 that an upward walk climbs, and what one rebalancing step and one whole
 fix-up do to a shape.
 */
module AvlShape {
  import opened Seqs
  import opened Bytes

  /** An AVLNode together with the score and key of the ZNode that embeds it. */
  class AvlNode {
    var parent: AvlNode?
    var left: AvlNode?
    var right: AvlNode?
    var height: nat
    var size: nat
    const score: real
    const key: seq<Byte>

    constructor (score: real, key: seq<Byte>)
      ensures parent == null && left == null && right == null
      ensures height == 1 && size == 1
      ensures this.score == score && this.key == key
    {
      parent, left, right, height, size := null, null, null, 1, 1;
      this.score, this.key := score, key;
    }
  }

  datatype Tree = Leaf | Node(l: Tree, n: AvlNode, r: Tree)

  /** A tree with a hole: the hole is the left (InL) or right (InR) child of `n`. */
  datatype Ctx = Top | InL(up: Ctx, n: AvlNode, r: Tree) | InR(up: Ctx, l: Tree, n: AvlNode)

  ghost function Nodes(t: Tree): set<AvlNode> {
    match t
    case Leaf => {}
    case Node(l, n, r) => Nodes(l) + {n} + Nodes(r)
  }

  ghost function InOrder(t: Tree): seq<AvlNode> {
    match t
    case Leaf => []
    case Node(l, n, r) => InOrder(l) + [n] + InOrder(r)
  }

  ghost predicate Distinct(t: Tree) {
    match t
    case Leaf => true
    case Node(l, n, r) =>
      Distinct(l) && Distinct(r) && n !in Nodes(l) && n !in Nodes(r) && Nodes(l) !! Nodes(r)
  }

  ghost predicate Near(a: int, b: int) { -1 <= a - b <= 1 }

  ghost function Height(t: Tree): nat {
    match t
    case Leaf => 0
    case Node(l, _, r) => 1 + Max(Height(l), Height(r))
  }

  ghost function Count(t: Tree): nat {
    match t
    case Leaf => 0
    case Node(l, _, r) => 1 + Count(l) + Count(r)
  }

  ghost predicate Balanced(t: Tree) {
    match t
    case Leaf => true
    case Node(l, _, r) => Balanced(l) && Balanced(r) && Near(Height(l), Height(r))
  }

  // --- contexts ---

  ghost function CtxNodes(c: Ctx): set<AvlNode> {
    match c
    case Top => {}
    case InL(up, n, r) => CtxNodes(up) + {n} + Nodes(r)
    case InR(up, l, n) => CtxNodes(up) + {n} + Nodes(l)
  }

  ghost predicate CtxDistinct(c: Ctx) {
    match c
    case Top => true
    case InL(up, n, r) =>
      CtxDistinct(up) && Distinct(r) && n !in Nodes(r) && n !in CtxNodes(up) && Nodes(r) !! CtxNodes(up)
    case InR(up, l, n) =>
      CtxDistinct(up) && Distinct(l) && n !in Nodes(l) && n !in CtxNodes(up) && Nodes(l) !! CtxNodes(up)
  }

  /** The node whose child is the hole, or null at the root. */
  ghost function Above(c: Ctx): AvlNode? {
    if c.Top? then null else c.n
  }

  ghost function Plug(c: Ctx, t: Tree): Tree {
    match c
    case Top => t
    case InL(up, n, r) => Plug(up, Node(t, n, r))
    case InR(up, l, n) => Plug(up, Node(l, n, t))
  }

  ghost function Before(c: Ctx): seq<AvlNode> {
    match c
    case Top => []
    case InL(up, _, _) => Before(up)
    case InR(up, l, n) => Before(up) + InOrder(l) + [n]
  }

  ghost function After(c: Ctx): seq<AvlNode> {
    match c
    case Top => []
    case InL(up, n, r) => [n] + InOrder(r) + After(up)
    case InR(up, _, _) => After(up)
  }

  /** The spine would be balanced if the hole held a balanced tree of height `h`. */
  ghost predicate CtxBalanced(c: Ctx, h: nat) {
    match c
    case Top => true
    case InL(up, _, r) => Balanced(r) && Near(h, Height(r)) && CtxBalanced(up, 1 + Max(h, Height(r)))
    case InR(up, l, _) => Balanced(l) && Near(h, Height(l)) && CtxBalanced(up, 1 + Max(h, Height(l)))
  }

  ghost function Depth(c: Ctx): nat {
    if c.Top? then 0 else 1 + Depth(c.up)
  }

  lemma {:induction false} PlugInOrder(c: Ctx, t: Tree)
    ensures InOrder(Plug(c, t)) == Before(c) + InOrder(t) + After(c)
  {
    match c
    case Top => Nil(InOrder(t));
    case InL(up, n, r) =>
      PlugInOrder(up, Node(t, n, r));
      Splice(Before(up), InOrder(t), n, InOrder(r), After(up));
    case InR(up, l, n) =>
      PlugInOrder(up, Node(l, n, t));
      Splice(Before(up), InOrder(l), n, InOrder(t), After(up));
  }

  lemma {:induction false} PlugNodes(c: Ctx, t: Tree)
    ensures Nodes(Plug(c, t)) == CtxNodes(c) + Nodes(t)
    ensures Distinct(Plug(c, t)) <==> CtxDistinct(c) && Distinct(t) && CtxNodes(c) !! Nodes(t)
  {
    match c
    case Top =>
    case InL(up, n, r) => PlugNodes(up, Node(t, n, r));
    case InR(up, l, n) => PlugNodes(up, Node(l, n, t));
  }

  lemma NodeBalanced(l: Tree, n: AvlNode, r: Tree)
    ensures Balanced(Node(l, n, r)) <==> Near(Height(l), Height(r)) && Balanced(l) && Balanced(r)
    ensures Height(Node(l, n, r)) == 1 + Max(Height(l), Height(r))
  {
  }

  /** A balanced tree is not high: its height is at most twice the logarithm of its size. */
  lemma {:induction false} HeightBound(t: Tree)
    requires Balanced(t)
    ensures Pow2(Height(t) / 2) <= Count(t) + 1
  {
    if t.Node? {
      HeightBound(t.l);
      HeightBound(t.r);
      if Height(t) >= 2 {
        Halved(Height(t), Height(t.l), Height(t.r));
      }
    }
  }

  /** The lower side is at most two levels below, so that half as much is due on either side. */
  lemma Halved(h: nat, l: nat, r: nat)
    requires h >= 2 && h == 1 + Max(l, r) && l <= r + 1 && r <= l + 1
    ensures Pow2(h / 2) <= Pow2(l / 2) + Pow2(r / 2)
  {
    Pow2Monotone((h - 2) / 2, l / 2);
    Pow2Monotone((h - 2) / 2, r / 2);
  }

  lemma {:induction false} Pow2Monotone(a: nat, b: nat)
    requires a <= b
    ensures Pow2(a) <= Pow2(b)
  {
    if a < b {
      Pow2Monotone(a, b - 1);
    }
  }

  lemma {:induction false} PlugBalanced(c: Ctx, t: Tree)
    ensures Balanced(Plug(c, t)) <==> Balanced(t) && CtxBalanced(c, Height(t))
  {
    if !c.Top? {
      PlugBalanced(c.up, Lift(c, t));
      LiftBalanced(c, t);
    }
  }

  lemma {:induction false} LiftBalanced(c: Ctx, t: Tree)
    requires !c.Top?
    ensures Balanced(Lift(c, t)) && CtxBalanced(c.up, Height(Lift(c, t))) <==> Balanced(t) && CtxBalanced(c, Height(t))
    ensures Plug(c, t) == Plug(c.up, Lift(c, t))
  {
    if c.InL? {
      NodeBalanced(t, c.n, c.r);
    } else {
      NodeBalanced(c.l, c.n, t);
    }
  }

  lemma {:induction false} InOrderNodes(t: Tree)
    ensures |InOrder(t)| == Count(t)
    ensures Nodes(t) == set x | x in InOrder(t)
  {
    match t
    case Leaf =>
    case Node(l, n, r) => InOrderNodes(l); InOrderNodes(r);
  }

  ghost predicate NoDup<T>(s: seq<T>) {
    forall i, j :: 0 <= i < j < |s| ==> s[i] != s[j]
  }

  lemma {:induction false} InOrderNoDup(t: Tree)
    requires Distinct(t)
    ensures NoDup(InOrder(t))
  {
    match t
    case Leaf =>
    case Node(l, n, r) =>
      InOrderNoDup(l); InOrderNoDup(r); InOrderNodes(l); InOrderNodes(r);
      NoDupConcat(InOrder(l), [n]);
      forall x | x in InOrder(l) + [n] ensures x !in InOrder(r) {
        assert x == n || x in InOrder(l);
        assert x == n || x in Nodes(l);
        assert x !in Nodes(r);
      }
      NoDupConcat(InOrder(l) + [n], InOrder(r));
  }

  lemma {:induction false} NoDupConcat<T>(a: seq<T>, b: seq<T>)
    requires NoDup(a) && NoDup(b)
    requires forall x :: x in a ==> x !in b
    ensures NoDup(a + b)
  {
    forall i, j | 0 <= i < j < |a + b| ensures (a + b)[i] != (a + b)[j] {
      assert i < |a| ==> a[i] in a;
    }
  }

  /** Splitting a duplicate-free sequence at an element is unique. */
  lemma {:induction false} SplitUnique<T>(a: seq<T>, x: T, b: seq<T>, c: seq<T>, d: seq<T>)
    requires a + [x] + b == c + [x] + d
    requires NoDup(a + [x] + b)
    ensures a == c && b == d
  {
    var s := a + [x] + b;
    assert s[|a|] == x && s[|c|] == x;
    assert |a| == |c|;
    assert a == s[..|a|] == c;
    assert b == s[|a| + 1..] == d;
  }

  /** Every node of a tree can be brought into focus. */
  lemma {:induction false} Focus(t: Tree, x: AvlNode) returns (c: Ctx, l: Tree, r: Tree)
    requires x in Nodes(t)
    ensures t == Plug(c, Node(l, x, r))
  {
    c, l, r := FocusUnder(Top, t, x);
  }

  lemma {:induction false} FocusUnder(c0: Ctx, t: Tree, x: AvlNode) returns (c: Ctx, l: Tree, r: Tree)
    requires x in Nodes(t)
    ensures Plug(c0, t) == Plug(c, Node(l, x, r))
    decreases t
  {
    if t.n == x { c, l, r := c0, t.l, t.r; }
    else if x in Nodes(t.l) { c, l, r := FocusUnder(InL(c0, t.n, t.r), t.l, x); }
    else { c, l, r := FocusUnder(InR(c0, t.l, t.n), t.r, x); }
  }

  // --- one rebalancing step and the whole climb, on shapes ---

  ghost function RotL(t: Tree): Tree
    requires t.Node? && t.r.Node?
  {
    Node(Node(t.l, t.n, t.r.l), t.r.n, t.r.r)
  }

  ghost function RotR(t: Tree): Tree
    requires t.Node? && t.l.Node?
  {
    Node(t.l.l, t.l.n, Node(t.l.r, t.n, t.r))
  }

  ghost function Rebalance(t: Tree): Tree
    requires t.Node?
  {
    if Height(t.l) == Height(t.r) + 2 then
      RotR(if Height(t.l.l) < Height(t.l.r) then Node(RotL(t.l), t.n, t.r) else t)
    else if Height(t.r) == Height(t.l) + 2 then
      RotL(if Height(t.r.r) < Height(t.r.l) then Node(t.l, t.n, RotR(t.r)) else t)
    else t
  }

  ghost function FixUp(c: Ctx, t: Tree): Tree
    requires t.Node?
    decreases c
  {
    match c
    case Top => Rebalance(t)
    case InL(up, _, _) => FixUp(up, Lift(c, Rebalance(t)))
    case InR(up, _, _) => FixUp(up, Lift(c, Rebalance(t)))
  }

  /** Both subtrees are balanced and the node itself is off by at most two. */
  ghost predicate Nearly(t: Tree) {
    t.Node? && Balanced(t.l) && Balanced(t.r) && -2 <= Height(t.l) - Height(t.r) <= 2
  }

  lemma {:induction false} RotLKeeps(a: Tree, x: AvlNode, b: Tree, y: AvlNode, d: Tree)
    ensures var t, u := Node(a, x, Node(b, y, d)), Node(Node(a, x, b), y, d);
      InOrder(u) == InOrder(t) && Nodes(u) == Nodes(t) && Count(u) == Count(t) && (Distinct(u) <==> Distinct(t))
  {
    var t, u := Node(a, x, Node(b, y, d)), Node(Node(a, x, b), y, d);
    calc {
      InOrder(u);
      (InOrder(a) + [x] + InOrder(b)) + [y] + InOrder(d);
      InOrder(a) + [x] + (InOrder(b) + [y] + InOrder(d));
      InOrder(t);
    }
    assert Nodes(t) == Nodes(a) + {x} + (Nodes(b) + {y} + Nodes(d));
    assert Nodes(u) == (Nodes(a) + {x} + Nodes(b)) + {y} + Nodes(d);
  }

  lemma {:induction false} RebalanceKeeps(t: Tree)
    requires t.Node?
    ensures InOrder(Rebalance(t)) == InOrder(t) && Nodes(Rebalance(t)) == Nodes(t) && Count(Rebalance(t)) == Count(t)
    ensures Distinct(t) ==> Distinct(Rebalance(t))
  {
    if Height(t.l) == Height(t.r) + 2 {
      if Height(t.l.l) < Height(t.l.r) {
        RotLKeeps(t.l.l, t.l.n, t.l.r.l, t.l.r.n, t.l.r.r);
        var u := RotL(t.l);
        RotLKeeps(u.l, u.n, u.r, t.n, t.r);
      } else { RotLKeeps(t.l.l, t.l.n, t.l.r, t.n, t.r); }
    } else if Height(t.r) == Height(t.l) + 2 {
      if Height(t.r.r) < Height(t.r.l) {
        RotLKeeps(t.r.l.l, t.r.l.n, t.r.l.r, t.r.n, t.r.r);
        var u := RotR(t.r);
        RotLKeeps(t.l, t.n, u.l, u.n, u.r);
      } else { RotLKeeps(t.l, t.n, t.r.l, t.r.n, t.r.r); }
    }
  }

  lemma {:induction false} LeftHeavy(t: Tree)
    requires Nearly(t) && Height(t.l) == Height(t.r) + 2
    ensures Balanced(Rebalance(t)) && 0 <= Height(Rebalance(t)) - Height(t.l) <= 1
  {
    var a, b := t.l.l, t.l.r;
    if Height(a) < Height(b) {
      assert Balanced(b);
      assert Balanced(b.l) && Balanced(b.r);
      assert Balanced(Node(a, t.l.n, b.l)) && Balanced(Node(b.r, t.n, t.r));
    } else {
      assert Balanced(Node(b, t.n, t.r));
    }
  }

  lemma {:induction false} RightHeavy(t: Tree)
    requires Nearly(t) && Height(t.r) == Height(t.l) + 2
    ensures Balanced(Rebalance(t)) && 0 <= Height(Rebalance(t)) - Height(t.r) <= 1
  {
    var a, b := t.r.l, t.r.r;
    if Height(b) < Height(a) {
      assert Balanced(a);
      assert Balanced(a.l) && Balanced(a.r);
      assert Balanced(Node(t.l, t.n, a.l)) && Balanced(Node(a.r, t.r.n, b));
    } else {
      assert Balanced(Node(t.l, t.n, a));
    }
  }

  lemma {:induction false} RebalanceBalances(t: Tree)
    requires Nearly(t)
    ensures Balanced(Rebalance(t))
    ensures Near(Height(t.l), Height(t.r)) ==> Rebalance(t) == t
    ensures !Near(Height(t.l), Height(t.r)) ==> 0 <= Height(Rebalance(t)) - Max(Height(t.l), Height(t.r)) <= 1
  {
    if Height(t.l) == Height(t.r) + 2 { LeftHeavy(t); }
    else if Height(t.r) == Height(t.l) + 2 { RightHeavy(t); }
  }

  /** The climb may start: the hole's spine was balanced at `h0`, and repairing the start lands within one of it. */
  ghost predicate Fixable(c: Ctx, t: Tree, h0: nat) {
    Nearly(t) && CtxBalanced(c, h0) && Near(Height(Rebalance(t)), h0)
  }

  /** The shape one level up once the subtree at the hole has become `t`. */
  ghost function Lift(c: Ctx, t: Tree): Tree
    requires !c.Top?
  {
    if c.InL? then Node(t, c.n, c.r) else Node(c.l, c.n, t)
  }

  ghost function Side(c: Ctx): Tree
    requires !c.Top?
  {
    if c.InL? then c.r else c.l
  }

  /** What balance on the way up says about the level next to the hole. */
  lemma {:induction false} NextLevel(c: Ctx, h: nat)
    requires !c.Top? && CtxBalanced(c, h)
    ensures Balanced(Side(c)) && Near(h, Height(Side(c))) && CtxBalanced(c.up, 1 + Max(h, Height(Side(c))))
  {
  }

  lemma {:induction false} LiftNearly(c: Ctx, t: Tree)
    requires !c.Top? && Balanced(Side(c)) && Balanced(t) && -2 <= Height(t) - Height(Side(c)) <= 2
    ensures Nearly(Lift(c, t)) && Height(Lift(c, t)) == 1 + Max(Height(t), Height(Side(c)))
  {
  }

  /** A balanced subtree within one of the old height lets the climb continue one level up. */
  lemma {:induction false} StepUp(c: Ctx, t: Tree, h0: nat)
    requires !c.Top? && CtxBalanced(c, h0) && Balanced(t) && Near(Height(t), h0)
    ensures Fixable(c.up, Lift(c, t), 1 + Max(h0, Height(Side(c))))
  {
    var u := Lift(c, t);
    NextLevel(c, h0);
    LiftNearly(c, t);
    RebalanceBalances(u);
    assert Max(Height(u.l), Height(u.r)) == Max(Height(t), Height(Side(c)));
    StepHeights(Height(t), h0, Height(Side(c)), Height(u), Height(Rebalance(u)));
  }

  /** Heights on the way up: the side is within one of the old height, the repaired one of the new. */
  lemma StepHeights(h: nat, h0: nat, side: nat, u: nat, fixed: nat)
    requires Near(h, h0) && Near(h0, side) && u == 1 + Max(h, side)
    requires if Near(h, side) then fixed == u else 0 <= fixed - Max(h, side) <= 1
    ensures Near(fixed, 1 + Max(h0, side))
  {
  }

  /** The whole climb restores balance everywhere and moves no node in the in-order sequence. */
  lemma {:induction false} FixUpCorrect(c: Ctx, t: Tree, h0: nat)
    requires Fixable(c, t, h0)
    ensures Balanced(FixUp(c, t))
    ensures InOrder(FixUp(c, t)) == Before(c) + InOrder(t) + After(c)
    ensures Nodes(FixUp(c, t)) == CtxNodes(c) + Nodes(t)
    ensures Distinct(Plug(c, t)) ==> Distinct(FixUp(c, t))
    decreases c
  {
    RebalanceKeeps(t);
    RebalanceBalances(t);
    PlugNodes(c, t);
    PlugNodes(c, Rebalance(t));
    PlugInOrder(c, t);
    PlugInOrder(c, Rebalance(t));
    if !c.Top? {
      var u := Lift(c, Rebalance(t));
      StepUp(c, Rebalance(t), h0);
      FixUpCorrect(c.up, u, 1 + Max(h0, Height(Side(c))));
      PlugInOrder(c.up, u);
      PlugNodes(c.up, u);
    }
  }
}
