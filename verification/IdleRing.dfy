/** The idle-timeout ring of server.cpp: a sentinel, and the connections in the order of their last activity. */
module IdleRing {
  import opened Dlist

  const IDLE_TIMEOUT_MS: nat := 100 * 1000

  ghost function Without<T>(s: seq<T>, i: nat): seq<T>
    requires i < |s|
  {
    s[..i] + s[i + 1..]
  }

  /** The sentinel and the connections, linked both ways around. */
  ghost predicate Ring(list: DListNode, cs: seq<DListNode>)
    reads list, cs
  {
    var all := [list] + cs;
    Chain(all, Last(all, null), list)
  }

  /** dlist_insert_before the sentinel: at the end. */
  method Append(list: DListNode, node: DListNode, ghost cs: seq<DListNode>)
    requires Ring(list, cs) && node != list && node !in cs
    modifies list`prev, list`next, cs`next, node`prev, node`next
    ensures Ring(list, cs + [node])
  {
    ghost var all := [list] + cs;
    ghost var last := Last(all, null);
    DistinctPairs(all);
    DistinctConcat(all, [node]);
    assert all[0].prev == last && all[|all| - 1] == last;
    InsertBefore(list, node);
    assert Fwd(all, node);
    assert Back(all, node);
    FwdConcat(all, [node], list);
    BackConcat(all, [node], node);
    assert [list] + (cs + [node]) == all + [node];
  }

  /** The ring seen from a node in it: what comes before, and what after. */
  ghost predicate Around(a: seq<DListNode>, node: DListNode, b: seq<DListNode>, list: DListNode)
    reads a, node, b
  {
    a != [] && a[0] == list && Distinct(a) && Distinct(b) && Distinct(a + b) && node !in a && node !in b &&
    (forall x :: x in a ==> x !in b) &&
    Fwd(a, node) && Fwd(b, list) && node.next == First(b, list) &&
    Back(a, Last(b, node)) && Back(b, node) && node.prev == Last(a, null)
  }

  lemma RingAround(list: DListNode, cs: seq<DListNode>, i: nat)
    requires Ring(list, cs) && i < |cs|
    ensures Around([list] + cs[..i], cs[i], cs[i + 1..], list)
  {
    var a, b := [list] + cs[..i], cs[i + 1..];
    assert [list] + cs == a + ([cs[i]] + b);
    ChainAround(a, cs[i], b, list);
  }

  lemma ChainAround(a: seq<DListNode>, node: DListNode, b: seq<DListNode>, list: DListNode)
    requires a != [] && a[0] == list && var all := a + ([node] + b); Chain(all, Last(all, null), list)
    ensures Around(a, node, b, list)
  {
    var nb := [node] + b;
    DistinctParts(a, nb);
    DistinctParts([node], b);
    assert nb[0] == node && forall x :: x in b ==> x in nb;
    DistinctConcat(a, b);
    FwdConcat(a, nb, list);
    FwdConcat([node], b, list);
    BackConcat(a, nb, Last(a + nb, null));
    BackConcat([node], b, Last(a, null));
    assert [node][0].next == First(b, list) && [node][0].prev == Last(a, null);
  }

  method Bypass(list: DListNode, node: DListNode, ghost a: seq<DListNode>, ghost b: seq<DListNode>)
    requires Around(a, node, b, list)
    modifies a`prev, a`next, b`prev, b`next
    ensures Chain(a + b, Last(a + b, null), list)
  {
    DistinctPairs(a);
    DistinctPairs(b);
    assert b != [] ==> b[0] in b;
    assert a[|a| - 1] in a && a[0] in a;
    Detach(node);
    assert Fwd(a, First(b, list));
    assert Fwd(b, list);
    assert Back(b, Last(a, null));
    assert Back(a, Last(a + b, null));
    FwdConcat(a, b, list);
    BackConcat(a, b, Last(a + b, null));
  }

  /** dlist_deatach of a connection. */
  method Remove(list: DListNode, node: DListNode, ghost cs: seq<DListNode>, ghost i: nat)
    requires Ring(list, cs) && i < |cs| && cs[i] == node
    modifies list`prev, list`next, cs`prev, cs`next
    ensures Ring(list, Without(cs, i))
  {
    ghost var a, b := [list] + cs[..i], cs[i + 1..];
    RingAround(list, cs, i);
    assert [list] + Without(cs, i) == a + b;
    Bypass(list, node, a, b);
  }

  // Times.

  ghost function Times(cs: seq<DListNode>): (ts: seq<nat>)
    reads cs
    ensures |ts| == |cs|
    ensures forall i :: 0 <= i < |cs| ==> ts[i] == cs[i].lastActive
  {
    seq(|cs|, i requires 0 <= i < |cs| reads cs => cs[i].lastActive)
  }

  /** In order of activity, none later than the clock. */
  ghost predicate InOrder(ts: seq<nat>, clock: nat) {
    ts == [] || (ts[|ts| - 1] <= clock && InOrder(ts[..|ts| - 1], ts[|ts| - 1]))
  }

  lemma {:induction false} InOrderPairs(ts: seq<nat>, clock: nat)
    ensures InOrder(ts, clock) <==>
      (forall i :: 0 <= i < |ts| ==> ts[i] <= clock) && (forall i, j :: 0 <= i < j < |ts| ==> ts[i] <= ts[j])
  {
    if ts != [] {
      InOrderPairs(ts[..|ts| - 1], ts[|ts| - 1]);
    }
  }

  predicate Expired(lastActive: nat, now: nat) { lastActive + IDLE_TIMEOUT_MS < now }

  /** Idle for more than 100 seconds. */
  lemma ExpiredIs(lastActive: nat, now: nat)
    ensures Expired(lastActive, now) <==> now - lastActive > 100_000
  {
  }

  lemma InOrderWithout(ts: seq<nat>, i: nat, clock: nat)
    requires i < |ts| && InOrder(ts, clock)
    ensures InOrder(Without(ts, i), clock)
  {
    var w := Without(ts, i);
    assert forall j :: 0 <= j < |w| ==> w[j] == if j < i then ts[j] else ts[j + 1];
    InOrderPairs(ts, clock);
    InOrderPairs(w, clock);
  }

  lemma InOrderLater(ts: seq<nat>, clock: nat, now: nat)
    requires InOrder(ts, clock) && clock <= now
    ensures InOrder(ts + [now], now)
  {
    assert (ts + [now])[..|ts|] == ts;
    InOrderPairs(ts, clock);
    InOrderPairs(ts, now);
  }

  lemma TimesWithout(cs: seq<DListNode>, i: nat)
    requires i < |cs|
    ensures Times(Without(cs, i)) == Without(Times(cs), i)
  {
  }

  lemma TimesAppend(cs: seq<DListNode>, c: DListNode)
    ensures Times(cs + [c]) == Times(cs) + [c.lastActive]
  {
  }

  /** last_active_ms = now; dlist_deatach; dlist_insert_before the sentinel. */
  method Requeue(list: DListNode, conn: DListNode, now: nat, ghost cs: seq<DListNode>, ghost i: nat)
    requires Ring(list, cs) && i < |cs| && cs[i] == conn
    modifies list, cs
    ensures Ring(list, Without(cs, i) + [conn])
    ensures Times(Without(cs, i) + [conn]) == Without(old(Times(cs)), i) + [now]
  {
    ghost var ts := Times(cs);
    ghost var rest := Without(cs, i);
    NotElsewhere(list, cs, i);
    TimesWithout(cs, i);
    conn.lastActive := now;
    Remove(list, conn, cs, i);
    Append(list, conn, rest);
    TimesAppend(rest, conn);
    assert Times(rest) == Without(ts, i);
  }

  /** A node that is not in the ring comes last, and the others keep their times. */
  method AppendNew(list: DListNode, conn: DListNode, ghost cs: seq<DListNode>)
    requires Ring(list, cs) && conn != list && conn !in cs
    modifies list`prev, list`next, cs`next, conn`prev, conn`next
    ensures Ring(list, cs + [conn]) && Times(cs + [conn]) == old(Times(cs)) + [conn.lastActive]
  {
    ghost var ts := Times(cs);
    Append(list, conn, cs);
    TimesAppend(cs, conn);
    assert Times(cs) == ts;
  }

  lemma NotElsewhere(list: DListNode, cs: seq<DListNode>, i: nat)
    requires Ring(list, cs) && i < |cs|
    ensures cs[i] != list && cs[i] !in Without(cs, i)
    ensures forall j :: 0 <= j < |Without(cs, i)| ==> Without(cs, i)[j] in cs
  {
    RingAround(list, cs, i);
    assert forall x :: x in cs[..i] ==> x in [list] + cs[..i];
    assert list in [list] + cs[..i];
  }

  lemma Alone(node: DListNode)
    requires node.prev == node && node.next == node
    ensures Ring(node, [])
  {
    assert [node] + [] == [node] && [node][0] == node && Distinct([node][1..]);
  }

  /** The sentinel's next is the oldest connection, or the sentinel itself if there is none. */
  lemma RingFirst(list: DListNode, cs: seq<DListNode>)
    requires Ring(list, cs)
    ensures list.next == First(cs, list) && (list.next == list <==> cs == [])
  {
    var all := [list] + cs;
    assert all[0] == list && all[0].next == First(cs, list);
    if cs != [] {
      NotElsewhere(list, cs, 0);
    }
  }

  /** In order, what follows an unexpired time is unexpired. */
  lemma RestUnexpired(ts: seq<nat>, clock: nat, now: nat)
    requires InOrder(ts, clock) && (ts != [] ==> !Expired(ts[0], now))
    ensures NoneExpired(ts, now)
  {
    InOrderPairs(ts, clock);
  }

  class IdleList {
    const list: DListNode
    ghost var conns: seq<DListNode>
    ghost var clock: nat

    /** dlist_init */
    constructor ()
      ensures Valid() && conns == [] && clock == 0 && fresh(list)
    {
      var node := new DListNode([], 0);
      node.prev, node.next := node, node;
      Alone(node);
      list := node;
      conns, clock := [], 0;
    }

    ghost predicate Valid()
      reads this, list, conns
    {
      Ring(list, conns) && InOrder(Times(conns), clock)
    }

    ghost method Update(cs: seq<DListNode>, t: nat)
      requires Ring(list, cs) && InOrder(Times(cs), t)
      modifies this
      ensures Valid() && conns == cs && clock == t
    {
      conns, clock := cs, t;
    }

    /** The end of handle_accept. */
    method Accept(now: nat) returns (conn: DListNode)
      requires Valid() && clock <= now
      modifies this, list, conns
      ensures Valid() && clock == now && fresh(conn) && conns == old(conns) + [conn]
      ensures Times(conns) == old(Times(conns)) + [now]
    {
      conn := new DListNode([], now);
      InOrderLater(Times(conns), clock, now);
      AppendNew(list, conn, conns);
      Update(conns + [conn], now);
    }

    /** A connection that poll reports becomes the newest. */
    method Touch(conn: DListNode, now: nat, ghost i: nat)
      requires Valid() && clock <= now && i < |conns| && conns[i] == conn
      modifies this, list, conns
      ensures Valid() && clock == now && conns == Without(old(conns), i) + [conn]
      ensures Times(conns) == Without(old(Times(conns)), i) + [now]
    {
      InOrderWithout(Times(conns), i, clock);
      InOrderLater(Without(Times(conns), i), clock, now);
      Requeue(list, conn, now, conns, i);
      Update(Without(conns, i) + [conn], now);
    }

    /** close_conn */
    method Close(conn: DListNode, ghost i: nat)
      requires Valid() && i < |conns| && conns[i] == conn
      modifies this, list`prev, list`next, conns`prev, conns`next
      ensures Valid() && clock == old(clock) && conns == Without(old(conns), i)
      ensures Times(conns) == Without(old(Times(conns)), i)
    {
      ghost var rest := Without(conns, i);
      ghost var ts := Times(rest);
      InOrderWithout(Times(conns), i, clock);
      TimesWithout(conns, i);
      NotElsewhere(list, conns, i);
      Remove(list, conn, conns, i);
      assert Times(rest) == ts;
      Update(rest, clock);
    }

    /** One iteration of the idle loop: closes the oldest connection if it has expired, and says which. */
    method CloseOldest(now: nat) returns (curr: DListNode?)
      requires Valid()
      modifies this, list`prev, list`next, conns`prev, conns`next
      ensures Valid() && clock == old(clock)
      ensures curr != null ==> ClosedFirst(old(conns), conns, curr, old(Times(conns)), Times(conns), now)
      ensures curr == null ==> conns == old(conns) && Times(conns) == old(Times(conns)) && NoneExpired(Times(conns), now)
    {
      RingFirst(list, conns);
      if list.next == list {
        return null;
      }
      var first := list.next;
      var timeout := first.lastActive + IDLE_TIMEOUT_MS;
      if timeout >= now {
        RestUnexpired(Times(conns), clock, now);
        return null;
      }
      ghost var cs, ts := conns, Times(conns);
      assert Without(cs, 0) == cs[1..] && Without(ts, 0) == ts[1..];
      Close(first, 0);
      return first;
    }

    /** The idle loop of process_timers closes exactly the connections that have expired. */
    method TimerPass(now: nat) returns (closed: seq<DListNode>)
      requires Valid()
      modifies this, list`prev, list`next, conns`prev, conns`next
      ensures Valid() && clock == old(clock)
      ensures Closed(old(conns), closed, conns, old(Times(conns)), Times(conns), now) && NoneExpired(Times(conns), now)
      ensures forall i :: 0 <= i < |conns| ==> now - Times(conns)[i] <= 100_000
    {
      closed := [];
      ghost var cs, ts := conns, Times(conns);
      var more := true;
      while more
        invariant Valid() && clock == old(clock) && Closed(cs, closed, conns, ts, Times(conns), now)
        invariant !more ==> NoneExpired(Times(conns), now)
        decreases |conns|, more
      {
        more, closed := CloseNext(now, closed, cs, ts);
      }
    }

    method CloseNext(now: nat, closed: seq<DListNode>, ghost cs: seq<DListNode>, ghost ts: seq<nat>)
      returns (more: bool, closed': seq<DListNode>)
      requires Valid() && Closed(cs, closed, conns, ts, Times(conns), now)
      modifies this, list`prev, list`next, cs`prev, cs`next
      ensures Valid() && clock == old(clock) && Closed(cs, closed', conns, ts, Times(conns), now)
      ensures if more then |conns| < |old(conns)| else NoneExpired(Times(conns), now) && conns == old(conns)
    {
      ghost var cs1, ts1 := conns, Times(conns);
      ClosedNodes(cs, closed, conns, ts, ts1, now);
      var curr := CloseOldest(now);
      if curr == null {
        return false, closed;
      }
      ClosedMore(cs, closed, cs1, conns, curr, ts, ts1, Times(conns), now);
      var node: DListNode := curr;
      return true, closed + [node];
    }
  }

  ghost predicate NoneExpired(ts: seq<nat>, now: nat) {
    forall i :: 0 <= i < |ts| ==> !Expired(ts[i], now)
  }

  ghost predicate ClosedFirst(cs: seq<DListNode>, cs': seq<DListNode>, curr: DListNode, ts: seq<nat>, ts': seq<nat>, now: nat) {
    |cs| == |ts| > 0 && curr == cs[0] && cs' == cs[1..] && ts' == ts[1..] && Expired(ts[0], now)
  }

  /** `closed` are the first connections, all of them expired; `rest` are the others, at the times they had. */
  ghost predicate Closed(cs: seq<DListNode>, closed: seq<DListNode>, rest: seq<DListNode>, ts: seq<nat>, ts': seq<nat>, now: nat) {
    var all :=
      closed + rest == cs && |ts| == |cs| && ts' == ts[|closed|..] &&
      forall i :: 0 <= i < |closed| ==> Expired(ts[i], now);
    all
  }

  lemma ClosedNodes(cs: seq<DListNode>, closed: seq<DListNode>, rest: seq<DListNode>, ts: seq<nat>, ts': seq<nat>, now: nat)
    requires Closed(cs, closed, rest, ts, ts', now)
    ensures forall i :: 0 <= i < |rest| ==> rest[i] in cs
  {
    assert forall i :: 0 <= i < |rest| ==> cs[|closed| + i] == rest[i];
  }

  lemma ClosedMore(cs: seq<DListNode>, closed: seq<DListNode>, rest: seq<DListNode>, rest': seq<DListNode>, curr: DListNode,
                   ts: seq<nat>, ts1: seq<nat>, ts2: seq<nat>, now: nat)
    requires Closed(cs, closed, rest, ts, ts1, now) && ClosedFirst(rest, rest', curr, ts1, ts2, now)
    ensures Closed(cs, closed + [curr], rest', ts, ts2, now)
  {
    assert closed + [curr] + rest' == cs;
    assert ts2 == ts[|closed| + 1..];
  }

  // Whole runs of the server loop.

  /** A new connection, activity on or the end of the k-th one accepted, or a timer pass. */
  datatype Op = AcceptOp | TouchOp(k: nat) | CloseOp(k: nat) | TimerOp

  datatype Event = Event(op: Op, now: nat)

  /** The clock does not go backwards. */
  ghost predicate Monotone(es: seq<Event>) {
    forall i, j :: 0 <= i < j < |es| ==> es[i].now <= es[j].now
  }

  ghost function Members(cs: seq<DListNode>): set<DListNode> { set c | c in cs }

  lemma InMembers(cs: seq<DListNode>)
    ensures forall i :: 0 <= i < |cs| ==> cs[i] in Members(cs)
  {
  }

  /** The ring is the plain map from each open connection to the time of its last activity. */
  ghost predicate Shows(cs: seq<DListNode>, ts: seq<nat>, m: map<DListNode, nat>) {
    var all := |cs| == |ts| && m.Keys == Members(cs) && forall i :: 0 <= i < |cs| ==> m[cs[i]] == ts[i];
    all
  }

  /** What stays open at a timer pass. */
  ghost function Unexpired(m: map<DListNode, nat>, now: nat): map<DListNode, nat> {
    map c | c in m && !Expired(m[c], now) :: m[c]
  }

  /** The open connections after an event; `accepted` are all accepted so far, with the one it has added. */
  ghost function After(m: map<DListNode, nat>, e: Event, accepted: seq<DListNode>): map<DListNode, nat> {
    match e.op
    case AcceptOp => if accepted == [] then m else m[accepted[|accepted| - 1] := e.now]
    case TouchOp(k) => if k < |accepted| && accepted[k] in m then m[accepted[k] := e.now] else m
    case CloseOp(k) => if k < |accepted| then m - {accepted[k]} else m
    case TimerOp => Unexpired(m, e.now)
  }

  /** An accept adds one connection to those accepted, and it is a new one. */
  ghost predicate Grown(accepted: seq<DListNode>, accepted': seq<DListNode>, e: Event, m: map<DListNode, nat>) {
    if e.op.AcceptOp? then |accepted'| == |accepted| + 1 && accepted'[..|accepted|] == accepted && accepted'[|accepted|] !in m
    else accepted' == accepted
  }

  lemma ShowsAppend(cs: seq<DListNode>, ts: seq<nat>, m: map<DListNode, nat>, c: DListNode, now: nat)
    requires Shows(cs, ts, m) && c !in cs
    ensures Shows(cs + [c], ts + [now], m[c := now])
  {
  }

  lemma ShowsWithout(cs: seq<DListNode>, ts: seq<nat>, m: map<DListNode, nat>, i: nat)
    requires Shows(cs, ts, m) && i < |cs| && cs[i] !in Without(cs, i)
    ensures Shows(Without(cs, i), Without(ts, i), m - {cs[i]})
  {
    forall c: DListNode
      ensures c in Without(cs, i) <==> c in cs && c != cs[i]
    {
      WithoutIs(cs, i, c);
    }
  }

  lemma WithoutIs(cs: seq<DListNode>, i: nat, c: DListNode)
    requires i < |cs| && cs[i] !in Without(cs, i)
    ensures c in Without(cs, i) <==> c in cs && c != cs[i]
  {
    assert cs == cs[..i] + [cs[i]] + cs[i + 1..];
  }

  lemma ShowsTouched(cs: seq<DListNode>, ts: seq<nat>, m: map<DListNode, nat>, i: nat, now: nat)
    requires Shows(cs, ts, m) && i < |cs| && cs[i] !in Without(cs, i)
    ensures Shows(Without(cs, i) + [cs[i]], Without(ts, i) + [now], m[cs[i] := now])
  {
    ShowsWithout(cs, ts, m, i);
    ShowsAppend(Without(cs, i), Without(ts, i), m - {cs[i]}, cs[i], now);
    assert (m - {cs[i]})[cs[i] := now] == m[cs[i] := now];
  }

  /** A connection is in the rest exactly when it has not expired. */
  lemma ShowsRest(cs: seq<DListNode>, closed: seq<DListNode>, rest: seq<DListNode>, ts: seq<nat>, ts': seq<nat>,
                  m: map<DListNode, nat>, now: nat)
    requires Shows(cs, ts, m) && Closed(cs, closed, rest, ts, ts', now) && NoneExpired(ts', now)
    ensures Shows(rest, ts', Unexpired(m, now))
  {
    var n := |closed|;
    forall i | 0 <= i < |cs|
      ensures i < n ==> cs[i] == closed[i] && Expired(m[cs[i]], now)
      ensures i >= n ==> cs[i] == rest[i - n] && m[cs[i]] == ts'[i - n] && !Expired(m[cs[i]], now)
    {
      assert i >= n ==> ts'[i - n] == ts[i];
    }
    forall c: DListNode
      ensures c in Unexpired(m, now) <==> c in rest
    {
      if c in rest {
        var j :| 0 <= j < |rest| && rest[j] == c;
        assert cs[n + j] == c;
      }
    }
    forall j | 0 <= j < |rest|
      ensures Unexpired(m, now)[rest[j]] == ts'[j]
    {
      assert cs[n + j] == rest[j];
    }
  }

  lemma MembersAppend(cs: seq<DListNode>, c: DListNode)
    ensures Members(cs + [c]) == Members(cs) + {c}
  {
  }

  lemma MembersWithout(cs: seq<DListNode>, i: nat)
    requires i < |cs|
    ensures Members(Without(cs, i)) <= Members(cs) && Members(Without(cs, i) + [cs[i]]) <= Members(cs)
  {
  }

  /** What the calls rely on and keep; `open` are the connections the server has open. */
  ghost predicate Good(ring: IdleList, open: set<DListNode>, m: map<DListNode, nat>)
    reads ring, ring.list, ring.conns
  {
    var good := ring.Valid() && m.Keys == open && Shows(ring.conns, Times(ring.conns), m);
    good
  }

  method DoAccept(ring: IdleList, now: nat, open: set<DListNode>, ghost m: map<DListNode, nat>) returns (c: DListNode)
    requires Good(ring, open, m) && ring.clock <= now
    modifies ring, ring.list, ring.conns
    ensures Good(ring, open + {c}, m[c := now]) && ring.clock == now && c !in m && fresh(c)
    ensures Members(ring.conns) == old(Members(ring.conns)) + {c}
  {
    ghost var cs, ts := ring.conns, Times(ring.conns);
    assert m.Keys == Members(cs);
    c := ring.Accept(now);
    ShowsAppend(cs, ts, m, c, now);
    MembersAppend(cs, c);
  }

  /** The place of an open connection in the ring. */
  lemma PlaceOf(ring: IdleList, open: set<DListNode>, m: map<DListNode, nat>, c: DListNode) returns (i: nat)
    requires Good(ring, open, m) && c in open
    ensures i < |ring.conns| && ring.conns[i] == c && c !in Without(ring.conns, i)
    ensures ring.Valid() && m.Keys == open && Shows(ring.conns, Times(ring.conns), m)
  {
    i :| 0 <= i < |ring.conns| && ring.conns[i] == c;
    NotElsewhere(ring.list, ring.conns, i);
  }

  method DoTouch(ring: IdleList, c: DListNode, now: nat, open: set<DListNode>, ghost m: map<DListNode, nat>)
    requires Good(ring, open, m) && ring.clock <= now && c in open
    modifies ring, ring.list, ring.conns
    ensures Good(ring, open, m[c := now]) && ring.clock == now
    ensures Members(ring.conns) <= old(Members(ring.conns))
  {
    ghost var cs, ts := ring.conns, Times(ring.conns);
    ghost var i := PlaceOf(ring, open, m, c);
    MembersWithout(cs, i);
    ring.Touch(c, now, i);
    ShowsTouched(cs, ts, m, i, now);
  }

  method DoClose(ring: IdleList, c: DListNode, open: set<DListNode>, ghost m: map<DListNode, nat>)
    requires Good(ring, open, m) && c in open
    modifies ring, ring.list, ring.conns
    ensures Good(ring, open - {c}, m - {c}) && ring.clock == old(ring.clock)
    ensures Members(ring.conns) <= old(Members(ring.conns))
  {
    ghost var cs, ts := ring.conns, Times(ring.conns);
    ghost var i := PlaceOf(ring, open, m, c);
    MembersWithout(cs, i);
    ring.Close(c, i);
    ShowsWithout(cs, ts, m, i);
  }

  method DoTimer(ring: IdleList, now: nat, open: set<DListNode>, ghost m: map<DListNode, nat>) returns (open': set<DListNode>)
    requires Good(ring, open, m)
    modifies ring, ring.list, ring.conns
    ensures Good(ring, open', Unexpired(m, now)) && ring.clock == old(ring.clock)
    ensures Members(ring.conns) <= old(Members(ring.conns))
  {
    ghost var cs, ts := ring.conns, Times(ring.conns);
    var closed := ring.TimerPass(now);
    ShowsRest(cs, closed, ring.conns, ts, Times(ring.conns), m, now);
    open' := open - set c | c in closed;
    RestMembers(cs, closed, ring.conns);
  }

  lemma RestMembers(cs: seq<DListNode>, closed: seq<DListNode>, rest: seq<DListNode>)
    requires closed + rest == cs && Distinct(cs)
    ensures Members(rest) == Members(cs) - Members(closed)
  {
    DistinctParts(closed, rest);
    assert forall c :: c in cs <==> c in closed || c in rest;
  }

  /** An event other than an accept; a connection that is not open cannot be touched or closed. */
  method DoOther(ring: IdleList, e: Event, accepted: seq<DListNode>, open: set<DListNode>, ghost m: map<DListNode, nat>)
    returns (open': set<DListNode>)
    requires Good(ring, open, m) && ring.clock <= e.now && !e.op.AcceptOp?
    modifies ring, ring.list, ring.conns
    ensures Good(ring, open', After(m, e, accepted)) && ring.clock <= e.now
    ensures Members(ring.conns) <= old(Members(ring.conns))
  {
    assert m.Keys == open;
    if e.op.TimerOp? {
      open' := DoTimer(ring, e.now, open, m);
    } else if !(e.op.k < |accepted| && accepted[e.op.k] in open) {
      assert e.op.k < |accepted| ==> m - {accepted[e.op.k]} == m;
      open' := open;
    } else if e.op.TouchOp? {
      DoTouch(ring, accepted[e.op.k], e.now, open, m);
      open' := open;
    } else {
      DoClose(ring, accepted[e.op.k], open, m);
      open' := open - {accepted[e.op.k]};
    }
  }

  method Do(ring: IdleList, e: Event, accepted: seq<DListNode>, open: set<DListNode>, ghost m: map<DListNode, nat>)
    returns (accepted': seq<DListNode>, open': set<DListNode>)
    requires Good(ring, open, m) && ring.clock <= e.now
    modifies ring, ring.list, ring.conns
    ensures Good(ring, open', After(m, e, accepted')) && ring.clock <= e.now && Grown(accepted, accepted', e, m)
    ensures forall c :: c in Members(ring.conns) ==> c in old(Members(ring.conns)) || fresh(c)
  {
    if e.op.AcceptOp? {
      var c := DoAccept(ring, e.now, open, m);
      accepted', open' := accepted + [c], open + {c};
    } else {
      accepted' := accepted;
      open' := DoOther(ring, e, accepted, open, m);
    }
  }

  /** One event of a run: the connections accepted, and those open with their times, before and after it. */
  ghost predicate Stepped(e: Event, s: State, s': State) {
    Grown(s.accepted, s'.accepted, e, s.open) && s'.open == After(s.open, e, s'.accepted)
  }

  datatype State = State(accepted: seq<DListNode>, open: map<DListNode, nat>)

  ghost predicate Traced(es: seq<Event>, trace: seq<State>) {
    var all := 0 < |trace| <= |es| + 1 && trace[0] == State([], map[]) &&
      forall i :: 0 <= i < |trace| - 1 ==> Stepped(es[i], trace[i], trace[i + 1]);
    all
  }

  lemma TracedMore(es: seq<Event>, trace: seq<State>, s: State)
    requires Traced(es, trace) && |trace| <= |es| && Stepped(es[|trace| - 1], trace[|trace| - 1], s)
    ensures Traced(es, trace + [s])
  {
  }

  /**
   Over every run of accepts, activity, closes and timer passes the ring holds exactly the open connections, oldest
   activity first; a pass closes those that have been idle for too long, and no others.
   */
  method Replay(es: seq<Event>) returns (ring: IdleList, open: set<DListNode>, ghost trace: seq<State>)
    requires Monotone(es)
    ensures Traced(es, trace) && |trace| == |es| + 1 && Good(ring, open, trace[|es|].open)
  {
    ring := new IdleList();
    open, trace := {}, [State([], map[])];
    var accepted: seq<DListNode> := [];
    for i := 0 to |es|
      invariant Traced(es, trace) && |trace| == i + 1 && trace[i].accepted == accepted && Good(ring, open, trace[i].open)
      invariant i < |es| ==> ring.clock <= es[i].now
      invariant fresh(ring) && fresh(ring.list) && forall c :: c in Members(ring.conns) ==> fresh(c)
    {
      ghost var m := trace[i].open;
      InMembers(ring.conns);
      accepted, open := Do(ring, es[i], accepted, open, m);
      ghost var s := State(accepted, After(m, es[i], accepted));
      TracedMore(es, trace, s);
      trace := trace + [s];
    }
  }
}
