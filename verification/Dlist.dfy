/** The link operations of dlist.cpp, on open-ended lists and on rings alike. */
module Dlist {
  import opened Bytes

  /** A node with the data of what it is part of: a list element's value, or a connection's time of last activity. */
  class DListNode {
    var prev: DListNode?
    var next: DListNode?
    const val: seq<Byte>
    var lastActive: nat

    constructor (val: seq<Byte>, now: nat)
      ensures prev == null && next == null && this.val == val && lastActive == now
    {
      prev, next, this.val, lastActive := null, null, val, now;
    }
  }

  ghost function Node(n: DListNode?): set<DListNode> { if n == null then {} else {n} }

  /** dlist_deatach; the node's own pointers stay as they are. */
  method Detach(node: DListNode)
    requires node.prev != node && node.next != node
    modifies Node(node.prev)`next, Node(node.next)`prev
    ensures node.prev != null ==> node.prev.next == node.next
    ensures node.next != null ==> node.next.prev == node.prev
  {
    var next, prev := node.next, node.prev;
    if prev != null {
      prev.next := next;
    }
    if next != null {
      next.prev := prev;
    }
  }

  /** dlist_insert_before */
  method InsertBefore(target: DListNode, node: DListNode)
    requires target != node && target.prev != node
    modifies target`prev, Node(target.prev)`next, node`prev, node`next
    ensures target.prev == node && node.next == target && node.prev == old(target.prev)
    ensures var p := old(target.prev); p != null ==> p.next == node
  {
    var prev := target.prev;
    target.prev := node;
    node.next := target;
    node.prev := prev;
    if prev != null {
      prev.next := node;
    }
  }

  /** dlist_insert_after */
  method InsertAfter(target: DListNode, node: DListNode)
    requires target != node && target.next != node
    modifies target`next, Node(target.next)`prev, node`prev, node`next
    ensures target.next == node && node.prev == target && node.next == old(target.next)
    ensures var n := old(target.next); n != null ==> n.prev == node
  {
    var next := target.next;
    target.next := node;
    node.prev := target;
    node.next := next;
    if next != null {
      next.prev := node;
    }
  }

  // Chains.

  ghost predicate Distinct(ns: seq<DListNode>) {
    ns == [] || (ns[0] !in ns[1..] && Distinct(ns[1..]))
  }

  lemma {:induction false} DistinctPairs(ns: seq<DListNode>)
    ensures Distinct(ns) <==> forall i, j :: 0 <= i < j < |ns| ==> ns[i] != ns[j]
  {
    if ns != [] {
      var t := ns[1..];
      DistinctPairs(t);
      assert forall i :: 0 <= i < |t| ==> t[i] == ns[i + 1];
      if forall i, j :: 0 <= i < j < |ns| ==> ns[i] != ns[j] {
        assert ns[0] !in t;
      }
    }
  }

  lemma DistinctConcat(a: seq<DListNode>, b: seq<DListNode>)
    requires Distinct(a) && Distinct(b) && forall x :: x in a ==> x !in b
    ensures Distinct(a + b)
  {
    var c := a + b;
    assert forall i :: 0 <= i < |a| ==> c[i] == a[i] && a[i] in a;
    assert forall i :: |a| <= i < |c| ==> c[i] == b[i - |a|] && c[i] in b;
    DistinctPairs(a);
    DistinctPairs(b);
    DistinctPairs(c);
  }

  lemma DistinctParts(a: seq<DListNode>, b: seq<DListNode>)
    requires Distinct(a + b)
    ensures Distinct(a) && Distinct(b) && forall x :: x in a ==> x !in b
  {
    var c := a + b;
    assert forall i :: 0 <= i < |a| ==> c[i] == a[i];
    assert forall i :: 0 <= i < |b| ==> c[|a| + i] == b[i];
    DistinctPairs(a);
    DistinctPairs(b);
    DistinctPairs(c);
  }

  /** Following next from the first node visits the sequence and then `end`. */
  ghost predicate Fwd(ns: seq<DListNode>, end: DListNode?)
    reads ns
  {
    forall i {:trigger ns[i].next} :: 0 <= i < |ns| ==> ns[i].next == if i + 1 < |ns| then ns[i + 1] else end
  }

  /** Following prev from the last node visits the sequence backwards and then `start`. */
  ghost predicate Back(ns: seq<DListNode>, start: DListNode?)
    reads ns
  {
    forall i {:trigger ns[i].prev} :: 0 <= i < |ns| ==> ns[i].prev == if i > 0 then ns[i - 1] else start
  }

  ghost function First(ns: seq<DListNode>, end: DListNode?): DListNode? { if ns == [] then end else ns[0] }

  ghost function Last(ns: seq<DListNode>, start: DListNode?): DListNode? {
    if ns == [] then start else ns[|ns| - 1]
  }

  /** Two chains one after the other. */
  lemma FwdConcat(a: seq<DListNode>, b: seq<DListNode>, end: DListNode?)
    ensures Fwd(a + b, end) <==> Fwd(a, First(b, end)) && Fwd(b, end)
  {
    var c := a + b;
    assert forall i :: 0 <= i < |a| ==> c[i] == a[i];
    assert forall i :: 0 <= i < |b| ==> c[|a| + i] == b[i];
  }

  lemma BackConcat(a: seq<DListNode>, b: seq<DListNode>, start: DListNode?)
    ensures Back(a + b, start) <==> Back(a, start) && Back(b, Last(a, start))
  {
    var c := a + b;
    assert forall i :: 0 <= i < |a| ==> c[i] == a[i];
    assert forall i :: 0 <= i < |b| ==> c[|a| + i] == b[i];
  }

  /** The whole list, both ways. */
  ghost predicate Chain(ns: seq<DListNode>, start: DListNode?, end: DListNode?)
    reads ns
  {
    var linked := Distinct(ns) && Fwd(ns, end) && Back(ns, start);
    linked
  }
}
