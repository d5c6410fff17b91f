/** Key expiry of server.cpp: a heap of deadlines, and the pass that removes what has expired. */
module Ttl {
  import opened Seqs
  import opened Heap

  const MAX_TTL_TASKS: nat := 200

  ghost function Refs(h: seq<Slot>): (r: set<Owner>) {
    set i | 0 <= i < |h| :: h[i].ref
  }

  lemma RefsOwned(h: seq<Slot>)
    ensures Owned(h, Refs(h))
  {
  }

  lemma PermutedRefs(h: seq<Slot>, h': seq<Slot>)
    requires Permuted(h, h')
    ensures Refs(h) == Refs(h')
  {
    forall o | o in Refs(h)
      ensures o in Refs(h')
    {
      var i :| 0 <= i < |h| && h[i].ref == o;
      assert h[i] in multiset(h');
    }
    forall o | o in Refs(h')
      ensures o in Refs(h)
    {
      var i :| 0 <= i < |h'| && h'[i].ref == o;
      assert h'[i] in multiset(h);
    }
  }

  // Pushing and removing.

  /** A new last entry is the only one that may be out of order, and it has no children to pass over. */
  lemma Pushed(h: seq<Slot>, s: Slot)
    ensures FixOk(h + [s], |h|) && (Ordered(h) ==> WrongAt(h + [s], |h|))
  {
    var g := h + [s];
    assert forall i :: 0 <= i < |h| ==> g[i] == h[i];
    assert !Sinks(g, |h|, s.val);
  }

  lemma PushedDistinct(h: seq<Slot>, s: Slot)
    requires Distinct(h) && s.ref !in Refs(h)
    ensures Distinct(h + [s])
  {
    var g := h + [s];
    assert forall i :: 0 <= i < |h| ==> g[i] == h[i] && h[i].ref in Refs(h);
  }

  /** Two entries of one key are not distinct. */
  lemma TwoEntries(h: seq<Slot>, s: Slot, h': seq<Slot>)
    requires s.ref in Refs(h) && multiset(h') == multiset(h) + multiset{s}
    ensures !Distinct(h')
  {
    var i :| 0 <= i < |h| && h[i].ref == s.ref;
    assert h[i] in multiset(h) && h[i] in multiset(h') && s in multiset(h');
    if h[i] == s {
      Twice(h', s);
    } else {
      var k :| 0 <= k < |h'| && h'[k] == h[i];
      var j :| 0 <= j < |h'| && h'[j] == s;
      assert j != k && h'[j].ref == h'[k].ref;
    }
  }

  lemma Twice(h: seq<Slot>, s: Slot)
    requires multiset(h)[s] >= 2
    ensures !Distinct(h)
  {
    var k :| 0 <= k < |h| && h[k] == s;
    if Distinct(h) {
      Once(h, k);
    }
  }

  /** heap[idx] = heap.back(); heap.pop_back() */
  function Moved(h: seq<Slot>, idx: nat): (g: seq<Slot>)
    requires idx < |h|
    ensures |g| == |h| - 1
    ensures forall i :: 0 <= i < |g| ==> g[i] == if i == idx then h[|h| - 1] else h[i]
  {
    h[idx := h[|h| - 1]][..|h| - 1]
  }

  lemma MovedMultiset(h: seq<Slot>, idx: nat)
    requires idx < |h|
    ensures multiset(Moved(h, idx)) == multiset(h) - multiset{h[idx]}
  {
    var last := h[|h| - 1];
    var g := h[idx := last];
    assert g == Moved(h, idx) + [last];
    assert multiset(g) == multiset(h) - multiset{h[idx]} + multiset{last};
    Cancel(multiset(Moved(h, idx)), multiset(h) - multiset{h[idx]}, last);
  }

  lemma Cancel(a: multiset<Slot>, b: multiset<Slot>, s: Slot)
    requires a + multiset{s} == b + multiset{s}
    ensures a == b
  {
    assert a == a + multiset{s} - multiset{s} && b == b + multiset{s} - multiset{s};
  }

  lemma MovedRefs(h: seq<Slot>, idx: nat)
    requires idx < |h|
    ensures Refs(Moved(h, idx)) <= Refs(h)
  {
    var m := Moved(h, idx);
    forall o | o in Refs(m)
      ensures o in Refs(h)
    {
      var i :| 0 <= i < |m| && m[i].ref == o;
      assert m[i] == h[i] || m[i] == h[|h| - 1];
    }
  }

  lemma MovedDistinct(h: seq<Slot>, idx: nat)
    requires idx < |h| && Distinct(h)
    ensures Distinct(Moved(h, idx))
  {
  }

  lemma MovedWrong(h: seq<Slot>, idx: nat)
    requires idx < |h| - 1 && Ordered(h)
    ensures WrongAt(Moved(h, idx), idx)
  {
  }

  lemma MovedLast(h: seq<Slot>)
    requires h != [] && Ordered(h)
    ensures Ordered(Moved(h, |h| - 1))
  {
  }

  /** Removing entry idx leaves the heap in order under the code as written. */
  predicate RemoveOk(h: seq<Slot>, idx: nat)
    requires idx < |h|
  {
    idx < |h| - 1 ==> FixOk(Moved(h, idx), idx)
  }

  /** The heap as rem_ttl leaves it. */
  ghost function Taken(d: Descent, h: seq<Slot>, idx: nat): (g: seq<Slot>)
    requires idx < |h|
    ensures |g| == |h| - 1
  {
    if idx < |h| - 1 then Fixed(d, Moved(h, idx), idx) else Moved(h, idx)
  }

  /** `h'` is `h` without its entry `idx`. */
  ghost predicate Removed(d: Descent, h: seq<Slot>, idx: nat, h': seq<Slot>) {
    var all :=
      idx < |h| && multiset(h') == multiset(h) - multiset{h[idx]} && Refs(h') <= Refs(h) && |h'| < |h| &&
      (Ordered(h) ==> (Ordered(h') <==> d.IntoSmaller? || RemoveOk(h, idx)));
    all
  }

  /** The part of rem_ttl that removes. The index of the key whose entry goes stays as it is. */
  method RemoveAt(d: Descent, h: seq<Slot>, idx: nat, ghost lk: bool) returns (h': seq<Slot>)
    requires idx < |h| && (lk ==> Linked(h))
    modifies Refs(h)
    ensures h' == Taken(d, h, idx) && Removed(d, h, idx, h') && (lk ==> Linked(h') && h[idx].ref.heapIdx == idx)
  {
    h' := Moved(h, idx);
    MovedMultiset(h, idx);
    MovedRefs(h, idx);
    if lk {
      MovedLinks(h, idx);
    }
    if idx < |h'| {
      var m := h';
      h' := FixAt(d, m, idx, lk);
      RemovedIs(d, h, idx, h');
    } else if Ordered(h) {
      MovedLast(h);
    }
  }

  /** The moved entry is put in order. */
  method FixAt(d: Descent, m: seq<Slot>, idx: nat, ghost lk: bool) returns (h': seq<Slot>)
    requires idx < |m| && (lk ==> Fixable(m, idx))
    modifies Refs(m)
    ensures h' == Fixed(d, m, idx) && Permuted(m, h') && Refs(h') == Refs(m) && (lk ==> Linked(h'))
    ensures WrongAt(m, idx) ==> (Ordered(h') <==> d.IntoSmaller? || FixOk(m, idx))
  {
    RefsOwned(m);
    h' := HeapFix(d, m, idx, Refs(m), lk);
    PermutedRefs(m, h');
  }

  lemma RemovedIs(d: Descent, h: seq<Slot>, idx: nat, h': seq<Slot>)
    requires idx < |h| - 1 && Permuted(Moved(h, idx), h') && Refs(h') == Refs(Moved(h, idx))
    requires WrongAt(Moved(h, idx), idx) ==> (Ordered(h') <==> d.IntoSmaller? || FixOk(Moved(h, idx), idx))
    ensures Removed(d, h, idx, h')
  {
    MovedMultiset(h, idx);
    MovedRefs(h, idx);
    if Ordered(h) {
      MovedWrong(h, idx);
    }
  }

  lemma MovedLinks(h: seq<Slot>, idx: nat)
    requires idx < |h| && Linked(h)
    ensures var m := Moved(h, idx); Fixable(m, idx) && h[idx].ref !in Refs(m) && (idx == |m| ==> Linked(m))
  {
    LinkedDistinct(h);
    MovedDistinct(h, idx);
    NotMoved(h, idx);
  }

  lemma NotMoved(h: seq<Slot>, idx: nat)
    requires idx < |h| && Distinct(h)
    ensures h[idx].ref !in Refs(Moved(h, idx))
  {
    var m := Moved(h, idx);
    forall i | 0 <= i < |m|
      ensures m[i].ref != h[idx].ref
    {
      assert m[i] == if i == idx then h[|h| - 1] else h[i];
    }
  }

  /** Pushes an entry and puts it in order; from a linked heap the result is linked unless the key has an entry already. */
  method Push(d: Descent, h: seq<Slot>, s: Slot, ghost lk: bool) returns (h': seq<Slot>)
    requires lk ==> Linked(h)
    modifies s.ref, Refs(h)
    ensures h' == Fixed(d, h + [s], |h|) && multiset(h') == multiset(h) + multiset{s}
    ensures Ordered(h) ==> Ordered(h')
    ensures lk ==> (Linked(h') <==> s.ref !in Refs(h))
  {
    ghost var single := lk && s.ref !in Refs(h);
    if single {
      LinkedDistinct(h);
      PushedDistinct(h, s);
    }
    Pushed(h, s);
    h' := FixLast(d, h, s, single);
    if lk && s.ref in Refs(h) {
      TwoEntries(h, s, h');
      NotLinked(h');
    }
  }

  method FixLast(d: Descent, h: seq<Slot>, s: Slot, ghost lk: bool) returns (h': seq<Slot>)
    requires lk ==> Fixable(h + [s], |h|)
    requires FixOk(h + [s], |h|) && (Ordered(h) ==> WrongAt(h + [s], |h|))
    modifies s.ref, Refs(h)
    ensures h' == Fixed(d, h + [s], |h|) && multiset(h') == multiset(h) + multiset{s}
    ensures (Ordered(h) ==> Ordered(h')) && (lk ==> Linked(h'))
  {
    MoreRefs(h, s);
    RefsOwned(h + [s]);
    h' := HeapFix(d, h + [s], |h|, Refs(h + [s]), lk);
  }

  lemma NotLinked(h: seq<Slot>)
    requires !Distinct(h)
    ensures !Linked(h)
  {
    if Linked(h) {
      LinkedDistinct(h);
    }
  }

  /** The deadlines of all keys that have one, and the database they are removed from. */
  class Deadlines {
    const d: Descent
    var heap: seq<Slot>
    var db: set<Owner>

    constructor (d: Descent)
      ensures this.d == d && heap == [] && db == {} && Linked(heap) && Ordered(heap)
    {
      this.d := d;
      heap, db := [], {};
    }

    /** set_ttl. On a key that has a deadline already it leaves two entries, which no back-pointer can serve. */
    method SetTtl(node: Owner, deadline: nat)
      modifies this`heap, node, Refs(heap)
      ensures heap == Fixed(d, old(heap) + [Slot(deadline, node)], |old(heap)|)
      ensures multiset(heap) == multiset(old(heap)) + multiset{Slot(deadline, node)}
      ensures old(Ordered(heap)) ==> Ordered(heap)
      ensures old(Linked(heap)) ==> (Linked(heap) <==> node !in old(Refs(heap)))
    {
      heap := Push(d, heap, Slot(deadline, node), Linked(heap));
    }

    /** The key's position is that of its own entry exactly when it has a deadline. */
    ghost predicate HasTtl(node: Owner)
      reads this, node
    {
      node.heapIdx < |heap| && heap[node.heapIdx].ref == node
    }

    lemma HasTtlIs(node: Owner)
      requires Linked(heap)
      ensures HasTtl(node) <==> node in Refs(heap)
    {
    }

    /** rem_ttl: removes the entry at the key's position, whosever that is, if there is such a position. */
    method RemTtl(node: Owner)
      modifies this`heap, Refs(heap)
      ensures if old(node.heapIdx) < |old(heap)|
              then Removed(d, old(heap), old(node.heapIdx), heap) && heap == Taken(d, old(heap), old(node.heapIdx))
              else heap == old(heap)
      ensures old(Linked(heap)) ==> Linked(heap)
      ensures old(Linked(heap)) && old(HasTtl(node)) ==> node.heapIdx == old(node.heapIdx)
    {
      var idx := node.heapIdx;
      if idx < |heap| {
        heap := RemoveAt(d, heap, idx, Linked(heap));
      }
    }

    /**
     PERSIST takes the key's own deadline away, and no other, exactly when the key has one or its index is no position in
     the heap.
     */
    method Persist(node: Owner)
      requires Linked(heap) && Distinct(heap)
      modifies this`heap, Refs(heap)
      ensures Linked(heap) && Distinct(heap)
      ensures View(heap) == old(View(heap)) - {node} <==> old(HasTtl(node)) || old(node.heapIdx) >= |old(heap)|
    {
      ghost var h, i := heap, node.heapIdx;
      HasTtlIs(node);
      RemTtl(node);
      LinkedDistinct(heap);
      if i < |h| {
        ViewRemove(h, heap, i);
        WhoseGone(h, i, node);
      } else {
        assert View(h) - {node} == View(h);
      }
    }

    /** One iteration of the entry-timeout loop. */
    method ExpireFirst() returns (s: Slot)
      requires Linked(heap) && heap != []
      modifies this, Refs(heap)
      ensures Linked(heap) && s == old(heap)[0] && Removed(d, old(heap), 0, heap) && heap == Taken(d, old(heap), 0)
      ensures db == old(db) - {s.ref}
    {
      s := heap[0];
      RemTtl(s.ref);
      db := db - {s.ref};
    }

    /** The entry-timeout loop of process_timers; `expired` lists what it removed from the roots of `heaps`, in order. */
    method Expire(now: nat) returns (expired: seq<Slot>, ghost heaps: seq<seq<Slot>>)
      requires Linked(heap)
      modifies this, Refs(heap)
      ensures Linked(heap) && multiset(old(heap)) == multiset(heap) + multiset(expired) && db == old(db) - Refs(expired)
      ensures PassDone(d, old(heap), heaps, expired, heap, now)
      ensures |expired| <= 201 && (|expired| < 201 ==> heap == [] || heap[0].val >= now)
    {
      expired, heaps := [], [heap];
      var iterations := 0;
      ghost var h0 := heap;
      while heap != [] && heap[0].val < now
        invariant Linked(heap) && Refs(heap) <= Refs(h0) && |expired| == iterations <= MAX_TTL_TASKS
        invariant Expired(h0, heap, expired) && Trail(d, h0, heaps, expired, heap, now)
        invariant db == old(db) - Refs(expired)
        decreases |heap|
      {
        ghost var h := heap;
        var s := ExpireFirst();
        ExpiredStep(h0, h, heap, expired);
        TrailMore(d, h0, heaps, expired, h, now, heap);
        MoreRefs(expired, s);
        expired, heaps := expired + [s], heaps + [heap];
        if iterations >= MAX_TTL_TASKS {
          break;
        }
        iterations := iterations + 1;
      }
      PassIsDone(d, h0, heaps, expired, heap, now);
    }
  }

  // A pass on the heap alone.

  /** Each heap is the one before it without its root, as rem_ttl leaves it: the first of them decides them all. */
  ghost predicate Follows(d: Descent, heaps: seq<seq<Slot>>) {
    forall i :: 0 <= i < |heaps| - 1 ==> FollowsAt(d, heaps, i)
  }

  ghost predicate FollowsAt(d: Descent, heaps: seq<seq<Slot>>, i: nat) {
    i + 1 < |heaps| && heaps[i] != [] && heaps[i + 1] == Taken(d, heaps[i], 0)
  }

  /** There is nothing to take off, or the root has not expired. */
  ghost predicate Stops(h: seq<Slot>, now: nat) { h == [] || h[0].val >= now }

  /** Taking off the root keeps a heap in order: as intended always, as written where the way left passes nothing over. */
  ghost predicate RootOk(d: Descent, h: seq<Slot>) { h != [] && (d.IntoSmaller? || RemoveOk(h, 0)) }

  /** Every removal of a pass is of that kind. */
  ghost predicate Clear(d: Descent, heaps: seq<seq<Slot>>) {
    forall i {:trigger RootOk(d, heaps[i])} :: 0 <= i < |heaps| - 1 ==> RootOk(d, heaps[i])
  }

  ghost predicate AllOrdered(heaps: seq<seq<Slot>>) {
    forall i {:trigger Ordered(heaps[i])} :: 0 <= i < |heaps| ==> Ordered(heaps[i])
  }

  /** A pass takes a root that has expired off one heap, and leaves another. */
  ghost predicate Took(d: Descent, h: seq<Slot>, s: Slot, h': seq<Slot>, now: nat) {
    var took := !Stops(h, now) && s == h[0] && Removed(d, h, 0, h');
    took
  }

  ghost predicate TookAt(d: Descent, heaps: seq<seq<Slot>>, expired: seq<Slot>, i: nat, now: nat) {
    i < |expired| && i + 1 < |heaps| && Took(d, heaps[i], expired[i], heaps[i + 1], now)
  }

  /** A heap in order stays so exactly when its root is of that kind. */
  ghost predicate KeepsAt(d: Descent, heaps: seq<seq<Slot>>, i: nat) {
    i + 1 < |heaps| && (Ordered(heaps[i]) ==> (Ordered(heaps[i + 1]) <==> RootOk(d, heaps[i]))) &&
    (d.IntoSmaller? ==> RootOk(d, heaps[i]))
  }

  /** What a pass takes off on its way through `heaps` from `h` to `h'`. */
  ghost predicate Trail(d: Descent, h: seq<Slot>, heaps: seq<seq<Slot>>, expired: seq<Slot>, h': seq<Slot>, now: nat) {
    var all := |heaps| == |expired| + 1 && heaps[0] == h && heaps[|expired|] == h' &&
      (forall i :: 0 <= i < |expired| ==> TookAt(d, heaps, expired, i, now)) && Follows(d, heaps) &&
      forall i :: 0 <= i < |expired| ==> KeepsAt(d, heaps, i);
    all
  }

  /**
   A pass takes off the roots that have expired, until one has not or the cap is reached: the heap before it decides which
   heaps it goes through. From a heap in order those are in order exactly when every removal is one that keeps the order,
   and then the pass does what it promises.
   */
  ghost predicate PassDone(d: Descent, h: seq<Slot>, heaps: seq<seq<Slot>>, expired: seq<Slot>, h': seq<Slot>, now: nat) {
    var done := |expired| <= MAX_TTL_TASKS + 1 && Trail(d, h, heaps, expired, h', now) &&
      (|expired| <= MAX_TTL_TASKS ==> Stops(h', now)) && (forall i :: 0 <= i < |expired| ==> expired[i].val < now) &&
      (Ordered(h) ==> (AllOrdered(heaps) <==> Clear(d, heaps))) &&
      (Ordered(h) && Clear(d, heaps) ==> Passed(expired, h', now)) && (d.IntoSmaller? ==> Clear(d, heaps));
    done
  }

  lemma PassIsDone(d: Descent, h: seq<Slot>, heaps: seq<seq<Slot>>, expired: seq<Slot>, h': seq<Slot>, now: nat)
    requires Trail(d, h, heaps, expired, h', now) && |expired| <= MAX_TTL_TASKS + 1
    requires |expired| <= MAX_TTL_TASKS ==> Stops(h', now)
    ensures PassDone(d, h, heaps, expired, h', now)
  {
    TrailExact(d, h, heaps, expired, h', now);
    TrailPassed(d, h, heaps, expired, h', now);
    forall i | 0 <= i < |expired|
      ensures expired[i].val < now
    {
      assert TookAt(d, heaps, expired, i, now);
    }
  }

  lemma TrailMore(d: Descent, h0: seq<Slot>, heaps: seq<seq<Slot>>, expired: seq<Slot>, h: seq<Slot>, now: nat, h': seq<Slot>)
    requires Trail(d, h0, heaps, expired, h, now) && !Stops(h, now) && Took(d, h, h[0], h', now) && h' == Taken(d, h, 0)
    ensures Trail(d, h0, heaps + [h'], expired + [h[0]], h', now)
  {
    var hs, e := heaps + [h'], expired + [h[0]];
    forall i | 0 <= i < |e|
      ensures TookAt(d, hs, e, i, now) && FollowsAt(d, hs, i) && KeepsAt(d, hs, i)
    {
      TookMore(d, heaps, expired, h, now, h', i);
      FollowsMore(d, heaps, h, h', i);
      KeepsMore(d, heaps, h, now, h', i);
    }
  }

  lemma TookMore(d: Descent, heaps: seq<seq<Slot>>, expired: seq<Slot>, h: seq<Slot>, now: nat, h': seq<Slot>, i: nat)
    requires |heaps| == |expired| + 1 && heaps[|expired|] == h && !Stops(h, now) && i <= |expired|
    requires if i < |expired| then TookAt(d, heaps, expired, i, now) else Took(d, h, h[0], h', now)
    ensures TookAt(d, heaps + [h'], expired + [h[0]], i, now)
  {
  }

  lemma FollowsMore(d: Descent, heaps: seq<seq<Slot>>, h: seq<Slot>, h': seq<Slot>, i: nat)
    requires heaps != [] && heaps[|heaps| - 1] == h && i < |heaps|
    requires if i < |heaps| - 1 then FollowsAt(d, heaps, i) else h != [] && h' == Taken(d, h, 0)
    ensures FollowsAt(d, heaps + [h'], i)
  {
  }

  lemma KeepsMore(d: Descent, heaps: seq<seq<Slot>>, h: seq<Slot>, now: nat, h': seq<Slot>, i: nat)
    requires heaps != [] && heaps[|heaps| - 1] == h && i < |heaps| && !Stops(h, now)
    requires if i < |heaps| - 1 then KeepsAt(d, heaps, i) else Took(d, h, h[0], h', now)
    ensures KeepsAt(d, heaps + [h'], i)
  {
    var hs := heaps + [h'];
    if i < |heaps| - 1 {
      assert hs[i] == heaps[i] && hs[i + 1] == heaps[i + 1];
    } else {
      TookOrdered(d, h, h[0], h', now);
    }
  }

  lemma TookOrdered(d: Descent, h: seq<Slot>, s: Slot, h': seq<Slot>, now: nat)
    requires Took(d, h, s, h', now)
    ensures Ordered(h) ==> (Ordered(h') <==> RootOk(d, h))
    ensures d.IntoSmaller? ==> RootOk(d, h)
  {
  }

  /** Facts of which each decides the next are all true exactly when every step keeps them so. */
  lemma AllTrue(facts: seq<bool>, keeps: seq<bool>)
    requires |facts| == |keeps| + 1 && facts[0] && forall i :: 0 <= i < |keeps| && facts[i] ==> facts[i + 1] == keeps[i]
    ensures (forall i :: 0 <= i < |facts| ==> facts[i]) <==> (forall i :: 0 <= i < |keeps| ==> keeps[i])
  {
    var next := facts[1..];
    AllKept(facts, next, keeps);
    assert forall i :: 0 <= i < |next| ==> next[i] == facts[i + 1];
    if forall i :: 0 <= i < |next| ==> next[i] {
      forall i | 0 <= i < |facts|
        ensures facts[i]
      {
        assert i > 0 ==> next[i - 1];
      }
    }
  }

  /** From a heap in order, a pass goes through heaps in order exactly when every removal keeps the order. */
  lemma TrailExact(d: Descent, h: seq<Slot>, heaps: seq<seq<Slot>>, expired: seq<Slot>, h': seq<Slot>, now: nat)
    requires Trail(d, h, heaps, expired, h', now)
    ensures Ordered(h) ==> (AllOrdered(heaps) <==> Clear(d, heaps))
    ensures d.IntoSmaller? ==> Clear(d, heaps)
  {
    var facts, keeps := HeapOrds(heaps), HeapOks(d, heaps);
    forall i | 0 <= i < |expired|
      ensures (facts[i] ==> facts[i + 1] == keeps[i]) && (d.IntoSmaller? ==> keeps[i])
    {
      TrailBools(d, h, heaps, expired, h', now, i);
    }
    AllIn(d, heaps, facts, keeps);
    if Ordered(h) {
      AllTrue(facts, keeps);
    }
  }

  ghost function HeapOrds(heaps: seq<seq<Slot>>): (o: seq<bool>)
    ensures |o| == |heaps|
  {
    seq(|heaps|, i requires 0 <= i < |heaps| => Ordered(heaps[i]))
  }

  ghost function HeapOks(d: Descent, heaps: seq<seq<Slot>>): (o: seq<bool>)
    requires heaps != []
    ensures |o| == |heaps| - 1
  {
    seq(|heaps| - 1, i requires 0 <= i < |heaps| - 1 => RootOk(d, heaps[i]))
  }

  lemma TrailBools(d: Descent, h: seq<Slot>, heaps: seq<seq<Slot>>, expired: seq<Slot>, h': seq<Slot>, now: nat, i: nat)
    requires Trail(d, h, heaps, expired, h', now) && i < |expired|
    ensures HeapOrds(heaps)[i] ==> HeapOrds(heaps)[i + 1] == HeapOks(d, heaps)[i]
    ensures d.IntoSmaller? ==> HeapOks(d, heaps)[i]
  {
    assert KeepsAt(d, heaps, i);
  }

  lemma AllIn(d: Descent, heaps: seq<seq<Slot>>, facts: seq<bool>, keeps: seq<bool>)
    requires heaps != [] && facts == HeapOrds(heaps) && keeps == HeapOks(d, heaps)
    ensures AllOrdered(heaps) <==> forall i :: 0 <= i < |facts| ==> facts[i]
    ensures Clear(d, heaps) <==> forall i :: 0 <= i < |keeps| ==> keeps[i]
  {
    assert forall i :: 0 <= i < |facts| ==> facts[i] == Ordered(heaps[i]);
    assert forall i :: 0 <= i < |keeps| ==> keeps[i] == RootOk(d, heaps[i]);
  }

  /** The root has gone from one heap to the list. */
  ghost predicate DropsAt(heaps: seq<seq<Slot>>, expired: seq<Slot>, i: nat) {
    var drops := i < |expired| && i + 1 < |heaps| && heaps[i] != [] && expired[i] == heaps[i][0] &&
      multiset(heaps[i + 1]) == multiset(heaps[i]) - multiset{expired[i]};
    drops
  }

  lemma TookDrops(d: Descent, heaps: seq<seq<Slot>>, expired: seq<Slot>, i: nat, now: nat)
    requires TookAt(d, heaps, expired, i, now)
    ensures DropsAt(heaps, expired, i)
  {
  }

  lemma BeforeNext(heaps: seq<seq<Slot>>, expired: seq<Slot>, i: nat)
    requires DropsAt(heaps, expired, i) && Ordered(heaps[i]) && Before(expired[..i], heaps[i])
    ensures Before(expired[..i + 1], heaps[i + 1])
  {
    BeforeStep(expired[..i], heaps[i], heaps[i + 1]);
    Around(expired, i);
  }

  lemma {:induction false} AllBefore(heaps: seq<seq<Slot>>, expired: seq<Slot>, i: nat)
    requires |heaps| == |expired| + 1 && i <= |expired| && AllOrdered(heaps)
    requires forall j :: 0 <= j < |expired| ==> DropsAt(heaps, expired, j)
    ensures Before(expired[..i], heaps[i])
  {
    if i > 0 {
      AllBefore(heaps, expired, i - 1);
      assert DropsAt(heaps, expired, i - 1) && Ordered(heaps[i - 1]);
      BeforeNext(heaps, expired, i - 1);
    }
  }

  /** A pass whose removals all keep the order does what it promises. */
  lemma TrailPassed(d: Descent, h: seq<Slot>, heaps: seq<seq<Slot>>, expired: seq<Slot>, h': seq<Slot>, now: nat)
    requires Trail(d, h, heaps, expired, h', now) && (|expired| <= MAX_TTL_TASKS ==> Stops(h', now))
    ensures Ordered(h) && Clear(d, heaps) ==> Passed(expired, h', now)
  {
    if Ordered(h) && Clear(d, heaps) {
      TrailExact(d, h, heaps, expired, h', now);
      forall i | 0 <= i < |expired|
        ensures DropsAt(heaps, expired, i)
      {
        TookDrops(d, heaps, expired, i, now);
      }
      AllBefore(heaps, expired, |expired|);
      assert expired[..|expired|] == expired;
      if |expired| <= MAX_TTL_TASKS {
        NoneLeft(h', now);
      }
    }
  }

  /** Everything is left or was removed. */
  ghost predicate Expired(h0: seq<Slot>, h: seq<Slot>, expired: seq<Slot>) {
    multiset(h0) == multiset(h) + multiset(expired)
  }

  lemma ExpiredStep(h0: seq<Slot>, h: seq<Slot>, h': seq<Slot>, expired: seq<Slot>)
    requires Expired(h0, h, expired) && h != [] && multiset(h') == multiset(h) - multiset{h[0]}
    ensures Expired(h0, h', expired + [h[0]])
  {
    assert h[0] in multiset(h);
    assert multiset(h) == multiset(h') + multiset{h[0]};
  }

  lemma NoneLeft(h: seq<Slot>, now: nat)
    requires Ordered(h) && (h == [] || h[0].val >= now)
    ensures forall s :: s in h ==> s.val >= now
  {
    forall i | 0 <= i < |h|
      ensures h[i].val >= now
    {
      RootIsLeast(h, i);
    }
  }

  /** Removed in order of their deadlines, none of which is later than one that is left. */
  ghost predicate Before(expired: seq<Slot>, rest: seq<Slot>) {
    var before :=
      (forall i, j :: 0 <= i <= j < |expired| ==> expired[i].val <= expired[j].val) &&
      (forall i, s :: 0 <= i < |expired| && s in rest ==> expired[i].val <= s.val);
    before
  }

  /** What a pass promises: earliest deadlines first, and nothing expired is left unless the cap stopped it. */
  ghost predicate Passed(expired: seq<Slot>, rest: seq<Slot>, now: nat) {
    Ordered(rest) && Before(expired, rest) &&
    (|expired| <= MAX_TTL_TASKS ==> forall s :: s in rest ==> s.val >= now)
  }

  lemma BeforeStep(expired: seq<Slot>, h: seq<Slot>, h': seq<Slot>)
    requires Before(expired, h) && Ordered(h) && h != [] && multiset(h') == multiset(h) - multiset{h[0]}
    ensures Before(expired + [h[0]], h')
  {
    forall s | s in h'
      ensures s in h && h[0].val <= s.val
    {
      assert s in multiset(h');
      var i :| 0 <= i < |h| && h[i] == s;
      RootIsLeast(h, i);
    }
  }

  lemma MoreRefs(a: seq<Slot>, s: Slot)
    ensures Refs(a + [s]) == Refs(a) + {s.ref}
  {
    var b := a + [s];
    assert forall i :: 0 <= i < |a| ==> b[i] == a[i];
    assert b[|a|] == s;
  }

  lemma WhoseGone(h: seq<Slot>, i: nat, node: Owner)
    requires Distinct(h) && i < |h|
    ensures View(h) - {h[i].ref} == View(h) - {node} <==> h[i].ref == node
  {
    assert h[i].ref in View(h);
    if h[i].ref != node {
      assert h[i].ref in View(h) - {node} && h[i].ref !in View(h) - {h[i].ref};
    }
  }

  /** Set and removed on one key, set on another, removed on the first again: the second has lost its deadline. */
  method StaleIndex(t: Deadlines, a: Owner, b: Owner)
    requires t.heap == [] && a != b
    modifies t`heap, a, b
    ensures t.heap == []
  {
    t.SetTtl(a, 1);
    OnlyEntry(t.heap, Slot(1, a));
    t.RemTtl(a);
    assert t.heap == [];
    t.SetTtl(b, 2);
    OnlyEntry(t.heap, Slot(2, b));
    t.RemTtl(a);
  }

  lemma OnlyEntry(h: seq<Slot>, s: Slot)
    requires multiset(h) == multiset{s}
    ensures h == [s]
  {
    assert |multiset(h)| == 1 && |h| == 1;
    assert h[0] in multiset(h);
  }

  // Whole runs.

  /** The deadline of each key that has one. */
  ghost function View(h: seq<Slot>): map<Owner, nat>
    requires Distinct(h)
  {
    map s | s in h :: s.ref := s.val
  }

  lemma ViewPush(h: seq<Slot>, h': seq<Slot>, s: Slot)
    requires Distinct(h) && Distinct(h') && multiset(h') == multiset(h) + multiset{s} && s.ref !in Refs(h)
    ensures View(h') == View(h)[s.ref := s.val]
  {
    forall x: Slot
      ensures x in h' <==> x in h || x == s
    {
      MoreMember(h, h', s, x);
    }
    ViewWith(h, h', s);
  }

  lemma MoreMember(h: seq<Slot>, h': seq<Slot>, s: Slot, x: Slot)
    requires multiset(h') == multiset(h) + multiset{s}
    ensures x in h' <==> x in h || x == s
  {
    assert x in h' <==> x in multiset(h');
    assert x in h <==> x in multiset(h);
  }

  lemma ViewWith(h: seq<Slot>, h': seq<Slot>, s: Slot)
    requires Distinct(h) && Distinct(h') && s.ref !in Refs(h)
    requires forall x :: x in h' <==> x in h || x == s
    ensures View(h') == View(h)[s.ref := s.val]
  {
  }

  lemma ViewRemove(h: seq<Slot>, h': seq<Slot>, i: nat)
    requires Distinct(h) && Distinct(h') && i < |h| && multiset(h') == multiset(h) - multiset{h[i]}
    ensures View(h') == View(h) - {h[i].ref}
  {
    forall x: Slot
      ensures x in h' <==> x in h && x != h[i]
    {
      LeftMember(h, h', i, x);
    }
    ViewWithout(h, h', h[i]);
  }

  lemma LeftMember(h: seq<Slot>, h': seq<Slot>, i: nat, x: Slot)
    requires Distinct(h) && i < |h| && multiset(h') == multiset(h) - multiset{h[i]}
    ensures x in h' <==> x in h && x != h[i]
  {
    Once(h, i);
    assert x in h' <==> x in multiset(h');
    assert x in h <==> x in multiset(h);
  }

  lemma ViewWithout(h: seq<Slot>, h': seq<Slot>, s: Slot)
    requires Distinct(h) && Distinct(h') && s in h
    requires forall x :: x in h' <==> x in h && x != s
    ensures View(h') == View(h) - {s.ref}
  {
  }

  lemma PushRefs(h: seq<Slot>, h': seq<Slot>, s: Slot)
    requires multiset(h') == multiset(h) + multiset{s}
    ensures Refs(h') <= Refs(h) + {s.ref}
  {
    forall o | o in Refs(h')
      ensures o in Refs(h) + {s.ref}
    {
      var i :| 0 <= i < |h'| && h'[i].ref == o;
      assert h'[i] in multiset(h');
      assert h'[i] == s || h'[i] in h;
    }
  }

  lemma Once(h: seq<Slot>, i: nat)
    requires Distinct(h) && i < |h|
    ensures multiset(h)[h[i]] == 1
  {
    assert h == h[..i] + [h[i]] + h[i + 1..];
    assert h[i] !in h[..i] && h[i] !in h[i + 1..];
    assert multiset(h) == multiset(h[..i]) + multiset{h[i]} + multiset(h[i + 1..]);
  }

  /** EXPIRE of a key without a deadline, PERSIST of one with a deadline, and an expiry pass. */
  datatype Op = SetOp(node: Owner, deadline: nat) | RemOp(node: Owner) | ExpireOp(now: nat)

  /** The deadlines after a call; `gone` is what a pass has removed. */
  ghost function Apply(m: map<Owner, nat>, op: Op, gone: seq<Slot>): map<Owner, nat> {
    match op
    case SetOp(o, t) => if o in m then m else m[o := t]
    case RemOp(o) => m - {o}
    case ExpireOp(_) => m - Refs(gone)
  }

  /** What a pass removes: deadlines that have passed, earliest first, all of them unless the cap stops it. */
  ghost predicate Swept(m: map<Owner, nat>, gone: seq<Slot>, now: nat, ordered: bool) {
    |gone| <= MAX_TTL_TASKS + 1 &&
    (forall s :: s in gone ==> s.ref in m && m[s.ref] == s.val && s.val < now) &&
    (ordered ==>
      (forall i, j :: 0 <= i <= j < |gone| ==> gone[i].val <= gone[j].val) &&
      (forall s, o :: s in gone && o in m && o !in Refs(gone) ==> s.val <= m[o]) &&
      (|gone| <= MAX_TTL_TASKS ==> forall o :: o in m && o !in Refs(gone) ==> m[o] >= now))
  }

  /** The call keeps the heap in order, as the heap before it tells; `heaps` are those that a pass goes through. */
  ghost predicate Smooth(d: Descent, h: seq<Slot>, op: Op, heaps: seq<seq<Slot>>) {
    match op
    case SetOp(_, _) => true
    case RemOp(o) => d.IntoSmaller? || forall i {:trigger RemoveOk(h, i)} :: 0 <= i < |h| && h[i].ref == o ==> RemoveOk(h, i)
    case ExpireOp(_) => Clear(d, heaps)
  }

  /** Every heap that the call goes through is in order. */
  ghost predicate Kept(op: Op, heaps: seq<seq<Slot>>, h': seq<Slot>) {
    if op.ExpireOp? then AllOrdered(heaps) else Ordered(h')
  }

  /** One call of a run: the new deadlines, and, for a pass, what it promises. */
  ghost predicate Stepped(d: Descent, h: seq<Slot>, op: Op, gone: seq<Slot>, heaps: seq<seq<Slot>>, h': seq<Slot>) {
    var ok := Distinct(h) && Distinct(h') && View(h') == Apply(View(h), op, gone) &&
      (op.ExpireOp? ==> Swept(View(h), gone, op.now, Ordered(h) && Clear(d, heaps)) && PassDone(d, h, heaps, gone, h', op.now));
    ok
  }

  /** What becomes of the order. */
  ghost predicate OrderStep(d: Descent, h: seq<Slot>, op: Op, heaps: seq<seq<Slot>>, h': seq<Slot>) {
    var step := (Ordered(h) ==> (Kept(op, heaps, h') <==> Smooth(d, h, op, heaps))) &&
      (Kept(op, heaps, h') ==> Ordered(h')) && (d.IntoSmaller? ==> Smooth(d, h, op, heaps));
    step
  }

  ghost function Nodes(ops: seq<Op>): set<Owner> {
    set i | 0 <= i < |ops| && !ops[i].ExpireOp? :: ops[i].node
  }

  lemma ViewExpired(h: seq<Slot>, h': seq<Slot>, gone: seq<Slot>)
    requires Distinct(h) && Distinct(h') && multiset(h) == multiset(h') + multiset(gone)
    ensures View(h') == View(h) - Refs(gone)
    ensures forall s :: s in gone ==> s in h
    ensures forall o :: o in View(h) && o !in Refs(gone) ==> Slot(View(h)[o], o) in h'
  {
    forall s: Slot
      ensures s in h <==> s in h' || s in gone
      ensures s in gone ==> s !in h' && s.ref !in View(h')
    {
      MemberOfSum(h, h', gone, s);
      if s in gone {
        RefNotLeft(h, h', gone, s);
      }
    }
    assert forall o :: o in Refs(gone) ==> exists s :: s in gone && s.ref == o;
  }

  lemma MemberOfSum(h: seq<Slot>, h': seq<Slot>, gone: seq<Slot>, s: Slot)
    requires multiset(h) == multiset(h') + multiset(gone)
    ensures s in h <==> s in h' || s in gone
  {
    assert s in h <==> s in multiset(h);
    assert s in h' <==> s in multiset(h');
    assert s in gone <==> s in multiset(gone);
  }

  /** What is gone is gone for good: its key has no other entry. */
  lemma RefNotLeft(h: seq<Slot>, h': seq<Slot>, gone: seq<Slot>, s: Slot)
    requires Distinct(h) && Distinct(h') && multiset(h) == multiset(h') + multiset(gone) && s in gone
    ensures s !in h' && s.ref !in View(h')
  {
    MemberOfSum(h, h', gone, s);
    var k :| 0 <= k < |h| && h[k] == s;
    Once(h, k);
    assert s in multiset(gone) && (multiset(h') + multiset(gone))[s] == 1;
    assert s !in multiset(h');
    forall x | x in h'
      ensures x.ref != s.ref
    {
      MemberOfSum(h, h', gone, x);
      assert x != s;
      var j :| 0 <= j < |h| && h[j] == x;
      assert j != k;
    }
  }

  method Pass(t: Deadlines, now: nat) returns (gone: seq<Slot>, ghost heaps: seq<seq<Slot>>)
    requires Linked(t.heap) && Distinct(t.heap)
    modifies t, Refs(t.heap)
    ensures Linked(t.heap) && Distinct(t.heap) && Refs(t.heap) <= old(Refs(t.heap))
    ensures Stepped(t.d, old(t.heap), ExpireOp(now), gone, heaps, t.heap)
    ensures OrderStep(t.d, old(t.heap), ExpireOp(now), heaps, t.heap)
  {
    ghost var h := t.heap;
    gone, heaps := t.Expire(now);
    LinkedDistinct(t.heap);
    SumRefs(h, t.heap, gone);
    PassSteps(t.d, h, heaps, t.heap, gone, now);
    PassOrder(t.d, h, heaps, t.heap, gone, now);
  }

  lemma PassSteps(d: Descent, h: seq<Slot>, heaps: seq<seq<Slot>>, h': seq<Slot>, gone: seq<Slot>, now: nat)
    requires Distinct(h) && Distinct(h') && multiset(h) == multiset(h') + multiset(gone)
    requires PassDone(d, h, heaps, gone, h', now)
    ensures Stepped(d, h, ExpireOp(now), gone, heaps, h')
  {
    ViewExpired(h, h', gone);
    PassSwept(h, h', gone, now, Ordered(h) && Clear(d, heaps));
  }

  lemma PassOrder(d: Descent, h: seq<Slot>, heaps: seq<seq<Slot>>, h': seq<Slot>, gone: seq<Slot>, now: nat)
    requires PassDone(d, h, heaps, gone, h', now)
    ensures OrderStep(d, h, ExpireOp(now), heaps, h')
  {
    assert AllOrdered(heaps) ==> Ordered(heaps[|gone|]);
  }

  lemma SetSteps(d: Descent, h: seq<Slot>, h': seq<Slot>, o: Owner, t: nat)
    requires Distinct(h) && Distinct(h') && multiset(h') == multiset(h) + multiset{Slot(t, o)} && o !in Refs(h)
    ensures Stepped(d, h, SetOp(o, t), [], [], h')
  {
    ViewPush(h, h', Slot(t, o));
  }

  lemma RemSteps(d: Descent, h: seq<Slot>, h': seq<Slot>, o: Owner, i: nat)
    requires Distinct(h) && Distinct(h') && i < |h| && h[i].ref == o && Removed(d, h, i, h')
    ensures Stepped(d, h, RemOp(o), [], [], h')
  {
    ViewRemove(h, h', i);
  }

  lemma RemOrder(d: Descent, h: seq<Slot>, h': seq<Slot>, o: Owner, i: nat)
    requires Distinct(h) && i < |h| && h[i].ref == o && Removed(d, h, i, h')
    ensures OrderStep(d, h, RemOp(o), [], h')
  {
    OnlyEntryOf(d, h, o, i);
  }

  lemma OnlyEntryOf(d: Descent, h: seq<Slot>, o: Owner, i: nat)
    requires Distinct(h) && i < |h| && h[i].ref == o
    ensures Smooth(d, h, RemOp(o), []) <==> d.IntoSmaller? || RemoveOk(h, i)
  {
    forall j | 0 <= j < |h| && h[j].ref == o
      ensures j == i
    {
    }
  }

  /** Setting a deadline where there is one, or removing one where there is none, is left undone. */
  lemma NoStep(d: Descent, h: seq<Slot>, op: Op)
    requires Distinct(h) && ((op.SetOp? && op.node in Refs(h)) || (op.RemOp? && op.node !in Refs(h)))
    ensures Stepped(d, h, op, [], [], h) && OrderStep(d, h, op, [], h)
  {
    if op.SetOp? {
      var i :| 0 <= i < |h| && h[i].ref == op.node;
      assert h[i] in h;
    } else {
      assert forall i :: 0 <= i < |h| ==> h[i].ref in Refs(h);
      assert View(h) - {op.node} == View(h);
    }
  }

  lemma SumRefs(h: seq<Slot>, h': seq<Slot>, gone: seq<Slot>)
    requires multiset(h) == multiset(h') + multiset(gone)
    ensures Refs(h') <= Refs(h)
  {
    forall o | o in Refs(h')
      ensures o in Refs(h)
    {
      var i :| 0 <= i < |h'| && h'[i].ref == o;
      MemberOfSum(h, h', gone, h'[i]);
    }
  }

  lemma PassSwept(h: seq<Slot>, h': seq<Slot>, gone: seq<Slot>, now: nat, ordered: bool)
    requires Distinct(h) && multiset(h) == multiset(h') + multiset(gone) && |gone| <= MAX_TTL_TASKS + 1
    requires forall i :: 0 <= i < |gone| ==> gone[i].val < now
    requires forall s :: s in gone ==> s in h
    requires forall o :: o in View(h) && o !in Refs(gone) ==> Slot(View(h)[o], o) in h'
    requires ordered ==> Passed(gone, h', now)
    ensures Swept(View(h), gone, now, ordered)
  {
    if ordered {
      forall s, o | s in gone && o in View(h) && o !in Refs(gone)
        ensures s.val <= View(h)[o]
      {
        var i :| 0 <= i < |gone| && gone[i] == s;
        var x := Slot(View(h)[o], o);
        assert x in h';
      }
    }
  }

  /** A call by a caller that looks first. */
  method Do(t: Deadlines, op: Op) returns (gone: seq<Slot>, ghost heaps: seq<seq<Slot>>)
    requires Linked(t.heap) && Distinct(t.heap)
    modifies t, (if op.ExpireOp? then {} else {op.node}), Refs(t.heap)
    ensures Linked(t.heap) && Distinct(t.heap) && Stepped(t.d, old(t.heap), op, gone, heaps, t.heap)
    ensures OrderStep(t.d, old(t.heap), op, heaps, t.heap)
    ensures Refs(t.heap) <= old(Refs(t.heap)) + if op.ExpireOp? then {} else {op.node}
  {
    gone, heaps := [], [];
    if op.ExpireOp? {
      gone, heaps := Pass(t, op.now);
      return;
    }
    ghost var h := t.heap;
    t.HasTtlIs(op.node);
    var has := op.node.heapIdx < |t.heap| && t.heap[op.node.heapIdx].ref == op.node;
    if op.SetOp? && !has {
      t.SetTtl(op.node, op.deadline);
      LinkedDistinct(t.heap);
      PushRefs(h, t.heap, Slot(op.deadline, op.node));
      SetSteps(t.d, h, t.heap, op.node, op.deadline);
    } else if op.RemOp? && has {
      ghost var i := op.node.heapIdx;
      t.RemTtl(op.node);
      LinkedDistinct(t.heap);
      RemSteps(t.d, h, t.heap, op.node, i);
      RemOrder(t.d, h, t.heap, op.node, i);
    } else {
      NoStep(t.d, h, op);
    }
  }

  /** A call of a run: the heap before it, what a pass has removed, the heaps it went through, and the heap after it. */
  datatype Call = Call(h: seq<Slot>, op: Op, gone: seq<Slot>, heaps: seq<seq<Slot>>, h': seq<Slot>)

  ghost predicate RightAt(d: Descent, run: seq<Call>, i: nat) {
    i < |run| && var c := run[i]; Stepped(d, c.h, c.op, c.gone, c.heaps, c.h')
  }

  ghost predicate OrderAt(d: Descent, run: seq<Call>, i: nat) {
    i < |run| && var c := run[i]; OrderStep(d, c.h, c.op, c.heaps, c.h')
  }

  ghost predicate SmoothAt(d: Descent, run: seq<Call>, i: nat) {
    i < |run| && var c := run[i]; Smooth(d, c.h, c.op, c.heaps)
  }

  ghost predicate KeptAt(run: seq<Call>, i: nat) {
    i < |run| && var c := run[i]; Kept(c.op, c.heaps, c.h')
  }

  /** The calls lead from `h` to `h'`. */
  ghost predicate Linear(h: seq<Slot>, run: seq<Call>, h': seq<Slot>) {
    var linear := (if run == [] then h == h' else run[0].h == h && run[|run| - 1].h' == h') &&
      forall i :: 0 < i < |run| ==> run[i].h == run[i - 1].h';
    linear
  }

  /** The calls of a run, from `h` to `h'`. */
  ghost predicate Traced(d: Descent, h: seq<Slot>, run: seq<Call>, h': seq<Slot>) {
    var traced := Linear(h, run, h') && (forall i :: 0 <= i < |run| ==> RightAt(d, run, i)) &&
      forall i :: 0 <= i < |run| ==> OrderAt(d, run, i);
    traced
  }

  lemma OneCall(d: Descent, c: Call)
    requires Stepped(d, c.h, c.op, c.gone, c.heaps, c.h') && OrderStep(d, c.h, c.op, c.heaps, c.h')
    ensures RightAt(d, [c], 0) && OrderAt(d, [c], 0)
  {
  }

  lemma LinearMore(h: seq<Slot>, run: seq<Call>, c: Call)
    requires Linear(h, run, c.h)
    ensures Linear(h, run + [c], c.h')
  {
  }

  lemma RightMore(d: Descent, run: seq<Call>, c: Call, i: nat)
    requires if i < |run| then RightAt(d, run, i) else i == |run| && RightAt(d, [c], 0)
    ensures RightAt(d, run + [c], i)
  {
    assert i < |run| ==> (run + [c])[i] == run[i];
  }

  lemma OrderMore(d: Descent, run: seq<Call>, c: Call, i: nat)
    requires if i < |run| then OrderAt(d, run, i) else i == |run| && OrderAt(d, [c], 0)
    ensures OrderAt(d, run + [c], i)
  {
    assert i < |run| ==> (run + [c])[i] == run[i];
  }

  lemma TracedMore(d: Descent, h: seq<Slot>, run: seq<Call>, c: Call)
    requires Traced(d, h, run, c.h) && RightAt(d, [c], 0) && OrderAt(d, [c], 0)
    ensures Traced(d, h, run + [c], c.h')
  {
    LinearMore(h, run, c);
    forall i | 0 <= i < |run + [c]|
      ensures RightAt(d, run + [c], i)
    {
      RightMore(d, run, c, i);
    }
    forall i | 0 <= i < |run + [c]|
      ensures OrderAt(d, run + [c], i)
    {
      OrderMore(d, run, c, i);
    }
  }

  ghost function Ords(run: seq<Call>, h': seq<Slot>): (o: seq<bool>)
    ensures |o| == |run| + 1
  {
    seq(|run| + 1, i requires 0 <= i <= |run| => Ordered(if i < |run| then run[i].h else h'))
  }

  ghost function Kepts(run: seq<Call>): (k: seq<bool>)
    ensures |k| == |run|
  {
    seq(|run|, i requires 0 <= i < |run| => KeptAt(run, i))
  }

  ghost function Smooths(d: Descent, run: seq<Call>): (s: seq<bool>)
    ensures |s| == |run|
  {
    seq(|run|, i requires 0 <= i < |run| => SmoothAt(d, run, i))
  }

  ghost predicate AllOf(bs: seq<bool>) { forall i :: 0 <= i < |bs| ==> bs[i] }

  lemma StepBools(d: Descent, h: seq<Slot>, run: seq<Call>, h': seq<Slot>, i: nat)
    requires Traced(d, h, run, h') && i < |run| && Ords(run, h')[i]
    ensures Kepts(run)[i] == Smooths(d, run)[i] && (Smooths(d, run)[i] ==> Ords(run, h')[i + 1])
  {
    assert OrderAt(d, run, i);
    OneExact(d, run, i);
    NextHeap(h, run, h', i);
  }

  lemma NextHeap(h: seq<Slot>, run: seq<Call>, h': seq<Slot>, i: nat)
    requires Linear(h, run, h') && i < |run|
    ensures run[i].h' == if i + 1 < |run| then run[i + 1].h else h'
  {
  }

  /** From a heap in order, a run goes through heaps in order exactly when every call of it is smooth. */
  lemma RunExact(d: Descent, h: seq<Slot>, run: seq<Call>, h': seq<Slot>)
    requires Traced(d, h, run, h') && Ordered(h)
    ensures AllOf(Kepts(run)) <==> AllOf(Smooths(d, run))
    ensures AllOf(Smooths(d, run)) ==> Ordered(h')
  {
    var ord, kept, smooth := Ords(run, h'), Kepts(run), Smooths(d, run);
    forall i | 0 <= i < |run| && ord[i]
      ensures kept[i] == smooth[i] && (smooth[i] ==> ord[i + 1])
    {
      StepBools(d, h, run, h', i);
    }
    AllKept(ord, kept, smooth);
  }

  lemma {:induction false} AllKept(ord: seq<bool>, kept: seq<bool>, smooth: seq<bool>)
    requires |ord| == |kept| + 1 == |smooth| + 1 && ord[0]
    requires forall i :: 0 <= i < |kept| && ord[i] ==> kept[i] == smooth[i] && (smooth[i] ==> ord[i + 1])
    ensures (forall i :: 0 <= i < |kept| ==> kept[i]) <==> (forall i :: 0 <= i < |smooth| ==> smooth[i])
    ensures (forall i :: 0 <= i < |smooth| ==> smooth[i]) ==> ord[|kept|]
  {
    if |kept| > 0 {
      var n := |kept| - 1;
      var o, k, s := ord[..n + 1], kept[..n], smooth[..n];
      assert forall i :: 0 <= i <= n ==> o[i] == ord[i];
      assert forall i :: 0 <= i < n ==> k[i] == kept[i];
      assert forall i :: 0 <= i < n ==> s[i] == smooth[i];
      AllKept(o, k, s);
      if forall i :: 0 <= i < |smooth| ==> smooth[i] {
        assert forall i :: 0 <= i < n ==> s[i];
      }
      if forall i :: 0 <= i < |kept| ==> kept[i] {
        assert forall i :: 0 <= i < n ==> k[i];
      }
    }
  }

  lemma OneExact(d: Descent, run: seq<Call>, i: nat)
    requires OrderAt(d, run, i)
    ensures Ordered(run[i].h) ==> (KeptAt(run, i) <==> SmoothAt(d, run, i)) && (SmoothAt(d, run, i) ==> Ordered(run[i].h'))
    ensures d.IntoSmaller? ==> SmoothAt(d, run, i)
  {
  }

  /** As intended every call is smooth. */
  lemma AllSmooth(d: Descent, h: seq<Slot>, run: seq<Call>, h': seq<Slot>)
    requires Traced(d, h, run, h') && d.IntoSmaller?
    ensures AllOf(Smooths(d, run))
  {
    forall i | 0 <= i < |run|
      ensures Smooths(d, run)[i]
    {
      assert OrderAt(d, run, i);
      OneExact(d, run, i);
    }
  }

  /** The next call of a run. */
  method Advance(t: Deadlines, op: Op, ghost h0: seq<Slot>, ghost run: seq<Call>) returns (gone: seq<Slot>, ghost c: Call)
    requires Linked(t.heap) && Distinct(t.heap) && Traced(t.d, h0, run, t.heap)
    modifies t, (if op.ExpireOp? then {} else {op.node}), Refs(t.heap)
    ensures Linked(t.heap) && Distinct(t.heap) && c.op == op && c.gone == gone && Traced(t.d, h0, run + [c], t.heap)
    ensures Refs(t.heap) <= old(Refs(t.heap)) + if op.ExpireOp? then {} else {op.node}
  {
    ghost var h := t.heap;
    ghost var heaps;
    gone, heaps := Do(t, op);
    c := Call(h, op, gone, heaps, t.heap);
    OneCall(t.d, c);
    TracedMore(t.d, h0, run, c);
  }

  /** What a whole run says about the order. */
  lemma RunOrder(d: Descent, h: seq<Slot>, run: seq<Call>, h': seq<Slot>)
    requires Traced(d, h, run, h')
    ensures Ordered(h) ==> (AllOf(Kepts(run)) <==> AllOf(Smooths(d, run)))
    ensures d.IntoSmaller? ==> AllOf(Smooths(d, run))
  {
    if Ordered(h) {
      RunExact(d, h, run, h');
    }
    if d.IntoSmaller? {
      AllSmooth(d, h, run, h');
    }
  }

  /**
   Over every run the heap holds exactly the deadlines set and not removed or expired, and stays linked. From a heap in
   order it stays in order through the whole run exactly when every call is smooth, as all calls are under the intended
   descent; and every smooth pass from a heap in order does what it promises.
   */
  method Replay(t: Deadlines, ops: seq<Op>) returns (gone: seq<seq<Slot>>, ghost run: seq<Call>)
    requires Linked(t.heap) && Distinct(t.heap)
    modifies t, Refs(t.heap), Nodes(ops)
    ensures Linked(t.heap) && Distinct(t.heap) && Traced(t.d, old(t.heap), run, t.heap)
    ensures |run| == |gone| == |ops| && forall i :: 0 <= i < |ops| ==> run[i].op == ops[i] && run[i].gone == gone[i]
    ensures old(Ordered(t.heap)) ==> (AllOf(Kepts(run)) <==> AllOf(Smooths(t.d, run)))
    ensures t.d.IntoSmaller? ==> AllOf(Smooths(t.d, run))
  {
    ghost var r, h0 := Refs(t.heap) + Nodes(ops), t.heap;
    gone, run := [], [];
    var i := 0;
    while i < |ops|
      invariant i <= |ops| && Linked(t.heap) && Distinct(t.heap) && Refs(t.heap) <= r
      invariant |run| == |gone| == i && forall j :: 0 <= j < i ==> run[j].op == ops[j] && run[j].gone == gone[j]
      invariant Traced(t.d, h0, run, t.heap)
    {
      var g;
      ghost var c;
      g, c := Advance(t, ops[i], h0, run);
      gone, run, i := gone + [g], run + [c], i + 1;
    }
    RunOrder(t.d, h0, run, t.heap);
  }

  /** A heap in order whose root the code as written does not remove in order. */
  lemma DescentFails(a: Owner, b: Owner, c: Owner, e: Owner)
    ensures var h := [Slot(0, a), Slot(2, b), Slot(1, c), Slot(3, e)]; Ordered(h) && !RemoveOk(h, 0)
  {
    var h := [Slot(0, a), Slot(2, b), Slot(1, c), Slot(3, e)];
    var m := Moved(h, 0);
    assert m == [Slot(3, e), Slot(2, b), Slot(1, c)];
    assert Sinks(m, 0, 3) && m[Left(0)].val > m[Right(0)].val;
  }

  /** The heap that is left when that root is taken off as the code is written. */
  lemma DescentLeaves(a: Owner, b: Owner, c: Owner, e: Owner)
    ensures var h := [Slot(0, a), Slot(2, b), Slot(1, c), Slot(3, e)];
      Taken(AsWritten, h, 0) == [Slot(2, b), Slot(3, e), Slot(1, c)]
  {
    var h := [Slot(0, a), Slot(2, b), Slot(1, c), Slot(3, e)];
    var m := [Slot(3, e), Slot(2, b), Slot(1, c)];
    assert Moved(h, 0) == m;
    var m' := [Slot(2, b), Slot(3, e), Slot(1, c)];
    assert Sinks(m, 0, 3) && Next(AsWritten, m, 0) == 1 && Swap(m, 0, 1) == m';
    assert Down(AsWritten, m, 0) == Down(AsWritten, m', 1) && Down(AsWritten, m', 1) == m';
  }

  /** A pass of the code as written over that heap stops with an expired deadline left. */
  method PassFails(t: Deadlines, a: Owner, b: Owner, c: Owner, e: Owner) returns (expired: seq<Slot>)
    requires t.d.AsWritten? && t.heap == [Slot(0, a), Slot(2, b), Slot(1, c), Slot(3, e)] && Linked(t.heap)
    modifies t, Refs(t.heap)
    ensures expired == [Slot(0, a)] && t.heap == [Slot(2, b), Slot(3, e), Slot(1, c)]
  {
    ghost var h := t.heap;
    ghost var heaps;
    expired, heaps := t.Expire(2);
    PassIs(h, heaps, expired, t.heap, 2, [Slot(2, b), Slot(3, e), Slot(1, c)]) by {
      DescentLeaves(a, b, c, e);
    }
  }

  /** A pass that takes off a root and finds one that has not expired stops there. */
  lemma PassIs(h: seq<Slot>, heaps: seq<seq<Slot>>, expired: seq<Slot>, h': seq<Slot>, now: nat, g: seq<Slot>)
    requires PassDone(AsWritten, h, heaps, expired, h', now)
    requires !Stops(h, now) && g == Taken(AsWritten, h, 0) && Stops(g, now)
    ensures expired == [h[0]] && h' == g
  {
    assert |expired| == 0 ==> h' == h;
    assert TookAt(AsWritten, heaps, expired, 0, now) && FollowsAt(AsWritten, heaps, 0);
    forall i | 0 <= i < |expired|
      ensures !Stops(heaps[i], now)
    {
      assert TookAt(AsWritten, heaps, expired, i, now);
    }
  }
}
