/** The binary min-heap of heap.cpp, whose entries know where they are. */
module Heap {
  /** The owner of an entry; the heap writes the entry's position into it. */
  class Owner {
    var heapIdx: nat

    constructor (idx: nat)
      ensures heapIdx == idx
    {
      heapIdx := idx;
    }
  }

  datatype Slot = Slot(val: nat, ref: Owner)

  function Left(pos: nat): nat { pos * 2 + 1 }

  function Right(pos: nat): nat { pos * 2 + 2 }

  function Parent(pos: nat): nat
    requires pos > 0
  {
    (pos - 1) / 2
  }

  // Order.

  /** No entry is smaller than its parent. */
  ghost predicate Ordered(h: seq<Slot>) {
    forall i {:trigger h[i]} :: 0 < i < |h| ==> h[Parent(i)].val <= h[i].val
  }

  /** Only the pair of `pos` and its parent may be out of order. */
  ghost predicate UpWrong(h: seq<Slot>, pos: nat) {
    (forall i {:trigger h[i]} :: 0 < i < |h| && i != pos ==> h[Parent(i)].val <= h[i].val) &&
    (forall i {:trigger h[i]} :: 0 < i < |h| && 0 < pos < |h| && Parent(i) == pos ==> h[Parent(pos)].val <= h[i].val)
  }

  /** Only the pairs of `pos` and its children may be out of order. */
  ghost predicate DownWrong(h: seq<Slot>, pos: nat) {
    (forall i {:trigger h[i]} :: 0 < i < |h| && Parent(i) != pos ==> h[Parent(i)].val <= h[i].val) &&
    (forall i {:trigger h[i]} :: 0 < i < |h| && 0 < pos < |h| && Parent(i) == pos ==> h[Parent(pos)].val <= h[i].val)
  }

  /** The entry at `pos` may have any value; the others would be in order without it. */
  ghost predicate WrongAt(h: seq<Slot>, pos: nat) {
    (forall i {:trigger h[i]} :: 0 < i < |h| && i != pos && Parent(i) != pos ==> h[Parent(i)].val <= h[i].val) &&
    (forall i {:trigger h[i]} :: 0 < i < |h| && 0 < pos < |h| && Parent(i) == pos ==> h[Parent(pos)].val <= h[i].val)
  }

  lemma WrongUp(h: seq<Slot>, pos: nat)
    requires WrongAt(h, pos) && 0 < pos < |h| && h[Parent(pos)].val > h[pos].val
    ensures UpWrong(h, pos)
  {
  }

  lemma WrongDown(h: seq<Slot>, pos: nat)
    requires WrongAt(h, pos) && pos < |h| && (pos > 0 ==> h[Parent(pos)].val <= h[pos].val)
    ensures DownWrong(h, pos)
  {
  }

  ghost function Swap(h: seq<Slot>, i: nat, j: nat): (s: seq<Slot>)
    requires i < |h| && j < |h|
    ensures |s| == |h|
  {
    h[i := h[j]][j := h[i]]
  }

  lemma SwapUp(h: seq<Slot>, pos: nat)
    requires 0 < pos < |h| && UpWrong(h, pos) && h[pos].val <= h[Parent(pos)].val
    ensures UpWrong(Swap(h, pos, Parent(pos)), Parent(pos))
  {
  }

  lemma SwapDown(h: seq<Slot>, pos: nat, c: nat)
    requires DownWrong(h, pos) && 0 < c < |h| && Parent(c) == pos && h[c].val < h[pos].val
    requires forall i {:trigger h[i]} :: 0 < i < |h| && Parent(i) == pos ==> h[c].val <= h[i].val
    ensures DownWrong(Swap(h, pos, c), c)
  {
  }

  lemma UpDone(h: seq<Slot>, pos: nat)
    requires UpWrong(h, pos) && pos < |h| && (pos > 0 ==> h[Parent(pos)].val <= h[pos].val)
    ensures Ordered(h)
  {
  }

  lemma DownDone(h: seq<Slot>, pos: nat)
    requires DownWrong(h, pos) && pos < |h|
    requires forall i {:trigger h[i]} :: 0 < i < |h| && Parent(i) == pos ==> h[pos].val <= h[i].val
    ensures Ordered(h)
  {
  }

  /** The root of a heap is a minimum. */
  lemma {:induction false} RootIsLeast(h: seq<Slot>, i: nat)
    requires Ordered(h) && i < |h|
    ensures h[0].val <= h[i].val
  {
    if i > 0 {
      RootIsLeast(h, Parent(i));
    }
  }

  // Back-pointers.

  ghost predicate Distinct(h: seq<Slot>) {
    forall i, j :: 0 <= i < j < |h| ==> h[i].ref != h[j].ref
  }

  ghost predicate LinkedBut(h: seq<Slot>, pos: int)
    reads set i | 0 <= i < |h| :: h[i].ref
  {
    forall i :: 0 <= i < |h| && i != pos ==> h[i].ref.heapIdx == i
  }

  ghost predicate Linked(h: seq<Slot>)
    reads set i | 0 <= i < |h| :: h[i].ref
  {
    forall i :: 0 <= i < |h| ==> h[i].ref.heapIdx == i
  }

  /** Two entries of one owner cannot both be found through it. */
  lemma LinkedDistinct(h: seq<Slot>)
    requires Linked(h)
    ensures Distinct(h)
  {
  }

  ghost predicate Owned(h: seq<Slot>, r: set<Owner>) {
    forall i :: 0 <= i < |h| ==> h[i].ref in r
  }

  ghost predicate Permuted(h: seq<Slot>, h': seq<Slot>) {
    |h| == |h'| && multiset(h) == multiset(h')
  }

  /** `h` with `node` in the hole at `pos` is a permutation of `h0`, and, if `lk`, linked everywhere else. */
  ghost predicate Hole(h0: seq<Slot>, h: seq<Slot>, pos: nat, node: Slot, r: set<Owner>, lk: bool)
    reads r
  {
    pos < |h| == |h0| && Owned(h[pos := node], r) && Permuted(h0, h[pos := node]) && (lk ==> Distinct(h[pos := node])) &&
    forall i :: 0 <= i < |h| && i != pos ==> h[i].ref in r && (lk ==> h[i].ref.heapIdx == i)
  }

  /** Linked but for the entry at `pos`, with one entry for each owner. */
  ghost predicate Fixable(h: seq<Slot>, pos: nat)
    reads set i | 0 <= i < |h| :: h[i].ref
  {
    Distinct(h) && LinkedBut(h, pos)
  }

  lemma OutAndIn(m: multiset<Slot>, x: Slot, y: Slot)
    requires x in m
    ensures m - multiset{x} + multiset{y} - multiset{y} + multiset{x} == m
  {
  }

  lemma SwapMultiset(g: seq<Slot>, i: nat, j: nat)
    requires i < |g| && j < |g|
    ensures multiset(Swap(g, i, j)) == multiset(g)
  {
    assert g[i] in multiset(g);
    var k := g[i := g[j]];
    assert multiset(k) == multiset(g) - multiset{g[i]} + multiset{g[j]} && k[j] == g[j];
    OutAndIn(multiset(g), g[i], g[j]);
  }

  lemma SwapDistinct(g: seq<Slot>, i: nat, j: nat)
    requires i < |g| && j < |g| && Distinct(g)
    ensures Distinct(Swap(g, i, j))
  {
  }

  lemma SwapKeeps(h0: seq<Slot>, g: seq<Slot>, i: nat, j: nat, r: set<Owner>)
    requires i < |g| && j < |g| && Permuted(h0, g) && Owned(g, r)
    ensures Permuted(h0, Swap(g, i, j)) && Owned(Swap(g, i, j), r) && (Distinct(g) ==> Distinct(Swap(g, i, j)))
  {
    SwapMultiset(g, i, j);
    if Distinct(g) {
      SwapDistinct(g, i, j);
    }
  }

  lemma HoleMoves(h: seq<Slot>, pos: nat, next: nat, node: Slot)
    requires pos < |h| && next < |h| && next != pos
    ensures h[pos := h[next]][next := node] == Swap(h[pos := node], pos, next)
  {
  }

  /** heap[pos] = heap[next]; *heap[pos].pos_ref = pos; pos = next */
  method Shift(h: seq<Slot>, pos: nat, next: nat, ghost node: Slot, ghost h0: seq<Slot>, ghost r: set<Owner>, ghost lk: bool)
    returns (h': seq<Slot>)
    requires Hole(h0, h, pos, node, r, lk) && next < |h| && next != pos
    modifies r
    ensures Hole(h0, h', next, node, r, lk) && h'[next := node] == Swap(h[pos := node], pos, next)
  {
    h' := h[pos := h[next]];
    HoleMoves(h, pos, next, node);
    SwapKeeps(h0, h[pos := node], pos, next, r);
    if lk {
      OthersDiffer(h, pos, next, node);
    }
    h'[pos].ref.heapIdx := pos;
  }

  lemma OthersDiffer(h: seq<Slot>, pos: nat, next: nat, node: Slot)
    requires pos < |h| && next < |h| && next != pos && Distinct(h[pos := node])
    ensures forall i :: 0 <= i < |h| && i != pos && i != next ==> h[i].ref != h[next].ref
  {
    var g := h[pos := node];
    forall i | 0 <= i < |h| && i != pos && i != next
      ensures h[i].ref != h[next].ref
    {
      assert g[i] == h[i] && g[next] == h[next];
    }
  }

  /** heap[pos] = node; *heap[pos].pos_ref = pos */
  method Fill(h: seq<Slot>, pos: nat, node: Slot, ghost h0: seq<Slot>, ghost r: set<Owner>, ghost lk: bool)
    returns (h': seq<Slot>)
    requires Hole(h0, h, pos, node, r, lk)
    modifies r
    ensures h' == h[pos := node] && Permuted(h0, h') && (lk ==> Linked(h'))
  {
    h' := h[pos := node];
    assert forall i :: 0 <= i < |h| && i != pos ==> h'[i] == h[i];
    h'[pos].ref.heapIdx := pos;
  }

  /** The entries as heap_up leaves them. */
  ghost function Up(h: seq<Slot>, pos: nat): (s: seq<Slot>)
    requires pos < |h|
    ensures |s| == |h|
    decreases pos
  {
    if pos > 0 && h[pos].val <= h[Parent(pos)].val then Up(Swap(h, pos, Parent(pos)), Parent(pos)) else h
  }

  /** heap_up */
  method HeapUp(h0: seq<Slot>, pos0: nat, ghost r: set<Owner>, ghost lk: bool) returns (h: seq<Slot>)
    requires pos0 < |h0| && Owned(h0, r) && (lk ==> Fixable(h0, pos0))
    modifies r
    ensures h == Up(h0, pos0) && Permuted(h0, h) && (lk ==> Linked(h))
    ensures UpWrong(h0, pos0) ==> Ordered(h)
  {
    h := h0;
    var pos, node := pos0, h[pos0];
    assert h[pos := node] == h;
    while pos > 0 && node.val <= h[Parent(pos)].val
      invariant Hole(h0, h, pos, node, r, lk) && Up(h[pos := node], pos) == Up(h0, pos0)
      invariant UpWrong(h0, pos0) ==> UpWrong(h[pos := node], pos)
    {
      if UpWrong(h0, pos0) {
        SwapUp(h[pos := node], pos);
      }
      h := Shift(h, pos, Parent(pos), node, h0, r, lk);
      pos := Parent(pos);
    }
    if UpWrong(h0, pos0) {
      UpDone(h[pos := node], pos);
    }
    h := Fill(h, pos, node, h0, r, lk);
  }

  /** Which child takes the hole: the left one in either branch, as written, or the smaller one, as intended. */
  datatype Descent = AsWritten | IntoSmaller

  /** Where heap_down goes on. */
  ghost function Next(d: Descent, h: seq<Slot>, pos: nat): nat {
    if d.IntoSmaller? && Right(pos) < |h| && h[Right(pos)].val < h[Left(pos)].val then Right(pos) else Left(pos)
  }

  /** The entries as heap_down leaves them. */
  ghost function Down(d: Descent, h: seq<Slot>, pos: nat): (s: seq<Slot>)
    requires pos < |h|
    ensures |s| == |h|
    decreases |h| - pos
  {
    if Sinks(h, pos, h[pos].val) then Down(d, Swap(h, pos, Next(d, h, pos)), Next(d, h, pos)) else h
  }

  /** Some child of `p` is smaller than v. */
  predicate Sinks(h: seq<Slot>, p: nat, v: nat) {
    (Left(p) < |h| && h[Left(p)].val < v) || (Right(p) < |h| && h[Right(p)].val < v)
  }

  /** Going left from `p` until v fits never passes a smaller right child. */
  predicate LeftOk(h: seq<Slot>, p: nat, v: nat)
    decreases |h| - p
  {
    Sinks(h, p, v) ==> (Right(p) < |h| ==> h[Left(p)].val <= h[Right(p)].val) && LeftOk(h, Left(p), v)
  }

  lemma {:induction false} LeftOkFrame(h: seq<Slot>, h': seq<Slot>, p: nat, v: nat)
    requires |h| == |h'| && forall i :: p < i < |h| ==> h[i] == h'[i]
    ensures LeftOk(h, p, v) == LeftOk(h', p, v)
    decreases |h| - p
  {
    if Sinks(h, p, v) {
      LeftOkFrame(h, h', Left(p), v);
    }
  }

  /** `q`, above and beside the way to `pos`, is greater than its right child. */
  ghost predicate Spoilt(h: seq<Slot>, q: nat, pos: nat) {
    q < pos && pos % 2 == 1 && Right(q) < |h| && h[q].val > h[Right(q)].val
  }

  lemma SpoiltStays(h: seq<Slot>, q: nat, pos: nat)
    requires Spoilt(h, q, pos) && Left(pos) < |h|
    ensures Spoilt(Swap(h, pos, Left(pos)), q, Left(pos))
  {
  }

  lemma SpoiltHere(h: seq<Slot>, pos: nat)
    requires Right(pos) < |h| && h[Right(pos)].val < h[Left(pos)].val
    ensures Spoilt(Swap(h, pos, Left(pos)), pos, Left(pos))
  {
  }

  lemma SpoiltUnordered(h: seq<Slot>, q: nat, pos: nat)
    requires Spoilt(h, q, pos)
    ensures !Ordered(h)
  {
    assert Parent(Right(q)) == q;
    assert !(h[Parent(Right(q))].val <= h[Right(q)].val);
  }

  /** How far the descent has come: nothing passed over, or a witness of what was. */
  ghost predicate Descending(d: Descent, h0: seq<Slot>, pos0: nat, g: seq<Slot>, pos: nat, v: nat, spoilt: bool, q: nat) {
    pos < |g| == |h0| && g[pos].val == v &&
    (DownWrong(h0, pos0) && !spoilt ==> DownWrong(g, pos)) &&
    (spoilt ==> d.AsWritten? && Spoilt(g, q, pos)) &&
    (d.AsWritten? ==> (LeftOk(h0, pos0, v) <==> !spoilt && LeftOk(g, pos, v)))
  }

  lemma LeftOkStep(g: seq<Slot>, pos: nat, v: nat)
    requires pos < |g| && Sinks(g, pos, v) && g[pos].val == v
    ensures LeftOk(g, pos, v) <==>
      (Right(pos) < |g| ==> g[Left(pos)].val <= g[Right(pos)].val) && LeftOk(Swap(g, pos, Left(pos)), Left(pos), v)
  {
    LeftOkFrame(g, Swap(g, pos, Left(pos)), Left(pos), v);
  }

  /** One step of the descent. */
  lemma DescendStep(d: Descent, h0: seq<Slot>, pos0: nat, g: seq<Slot>, pos: nat, v: nat, spoilt: bool, q: nat, next: nat)
    returns (spoilt': bool, q': nat)
    requires Descending(d, h0, pos0, g, pos, v, spoilt, q) && Sinks(g, pos, v)
    requires var right := Right(pos) < |g| && g[Right(pos)].val < g[Left(pos)].val;
      next == if right && d.IntoSmaller? then Right(pos) else Left(pos)
    ensures next < |g| && Descending(d, h0, pos0, Swap(g, pos, next), next, v, spoilt', q')
  {
    var right := Right(pos) < |g| && g[Right(pos)].val < g[Left(pos)].val;
    if d.AsWritten? {
      LeftOkStep(g, pos, v);
    }
    spoilt', q' := spoilt, q;
    if spoilt {
      SpoiltStays(g, q, pos);
    } else if right && d.AsWritten? {
      spoilt', q' := true, pos;
      SpoiltHere(g, pos);
    } else if DownWrong(h0, pos0) {
      Children(g, pos);
      SwapDown(g, pos, next);
    }
  }

  lemma Children(h: seq<Slot>, pos: nat)
    ensures forall i :: 0 < i < |h| && Parent(i) == pos ==> i == Left(pos) || i == Right(pos)
    ensures Parent(Left(pos)) == pos && Parent(Right(pos)) == pos
  {
  }

  lemma DescendDone(d: Descent, h0: seq<Slot>, pos0: nat, g: seq<Slot>, pos: nat, v: nat, spoilt: bool, q: nat)
    requires Descending(d, h0, pos0, g, pos, v, spoilt, q) && !Sinks(g, pos, v) && DownWrong(h0, pos0)
    ensures Ordered(g) <==> d.IntoSmaller? || LeftOk(h0, pos0, v)
  {
    if spoilt {
      SpoiltUnordered(g, q, pos);
    } else {
      Children(g, pos);
      DownDone(g, pos);
    }
  }

  /** dmin over the node and its children. */
  function MinVal(h: seq<Slot>, pos: nat, v: nat): (m: nat)
    ensures m <= v && (m == v <==> !Sinks(h, pos, v))
  {
    var a := if Left(pos) < |h| && h[Left(pos)].val < v then h[Left(pos)].val else v;
    if Right(pos) < |h| && h[Right(pos)].val < a then h[Right(pos)].val else a
  }

  /**
   heap_down. Entries and back-pointers are right either way; order is restored by going into the smaller child, and
   by the code as written exactly when its way left passes no smaller right child.
   */
  method HeapDown(d: Descent, h0: seq<Slot>, pos0: nat, ghost r: set<Owner>, ghost lk: bool) returns (h: seq<Slot>)
    requires pos0 < |h0| && Owned(h0, r) && (lk ==> Fixable(h0, pos0))
    modifies r
    ensures h == Down(d, h0, pos0) && Permuted(h0, h) && (lk ==> Linked(h))
    ensures DownWrong(h0, pos0) ==> (Ordered(h) <==> d.IntoSmaller? || LeftOk(h0, pos0, h0[pos0].val))
  {
    h := h0;
    var pos: nat, node := pos0, h[pos0];
    ghost var spoilt, q: nat := false, 0;
    assert h[pos := node] == h;
    while pos < |h|
      invariant Hole(h0, h, pos, node, r, lk) && Down(d, h[pos := node], pos) == Down(d, h0, pos0)
      invariant Descending(d, h0, pos0, h[pos := node], pos, node.val, spoilt, q)
      decreases |h| - pos
    {
      ghost var g := h[pos := node];
      assert forall i :: 0 <= i < |h| && i != pos ==> g[i] == h[i];
      if node.val == MinVal(h, pos, node.val) {
        break;
      }
      var next := Left(pos);
      if Right(pos) < |h| && h[Right(pos)].val < h[Left(pos)].val {
        next := match d case AsWritten => Left(pos) case IntoSmaller => Right(pos);
      }
      spoilt, q := DescendStep(d, h0, pos0, g, pos, node.val, spoilt, q, next);
      h := Shift(h, pos, next, node, h0, r, lk);
      pos := next;
    }
    ghost var g := h[pos := node];
    assert forall i :: 0 <= i < |h| && i != pos ==> g[i] == h[i];
    if DownWrong(h0, pos0) {
      DescendDone(d, h0, pos0, g, pos, node.val, spoilt, q);
    }
    h := Fill(h, pos, node, h0, r, lk);
  }

  /** The condition under which the code as written restores the order: it goes up, or its way down is clear. */
  predicate FixOk(h: seq<Slot>, pos: nat)
    requires pos < |h|
  {
    (pos > 0 && h[Parent(pos)].val > h[pos].val) || LeftOk(h, pos, h[pos].val)
  }

  /** The entries as heap_fix leaves them. */
  ghost function Fixed(d: Descent, h: seq<Slot>, pos: nat): (s: seq<Slot>)
    requires pos < |h|
    ensures |s| == |h|
  {
    if pos > 0 && h[Parent(pos)].val > h[pos].val then Up(h, pos) else Down(d, h, pos)
  }

  /** heap_fix */
  method HeapFix(d: Descent, h0: seq<Slot>, pos: nat, ghost r: set<Owner>, ghost lk: bool) returns (h: seq<Slot>)
    requires pos < |h0| && Owned(h0, r) && (lk ==> Fixable(h0, pos))
    modifies r
    ensures h == Fixed(d, h0, pos) && Permuted(h0, h) && (lk ==> Linked(h))
    ensures WrongAt(h0, pos) ==> (Ordered(h) <==> d.IntoSmaller? || FixOk(h0, pos))
  {
    if pos > 0 && h0[Parent(pos)].val > h0[pos].val {
      if WrongAt(h0, pos) {
        WrongUp(h0, pos);
      }
      h := HeapUp(h0, pos, r, lk);
    } else {
      if WrongAt(h0, pos) {
        WrongDown(h0, pos);
      }
      h := HeapDown(d, h0, pos, r, lk);
    }
  }
}
