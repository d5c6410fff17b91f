/** The hash map of hashmap.cpp: two tables and an incremental migration between them. */
module HashMap {
  import opened Bytes
  import opened HashTable

  const MAX_LOAD_FACTOR: nat := 8
  const REHASHING_WORK: nat := 128

  /** Two well-formed tables that share nothing. */
  ghost predicate Apart<V>(older: HTab<V>, newer: HTab<V>)
    reads older, newer, older.tab, newer.tab, older.Nodes(), newer.Nodes()
  {
    var oldOk, newOk := older.Valid(), newer.Valid();
    && older != newer && oldOk && newOk
    && older.Nodes() !! newer.Nodes()
    && (older.tab != null ==> older.tab != newer.tab)
  }

  /** All slots below the cursor are empty. */
  ghost predicate Swept<V>(older: HTab<V>, pos: nat)
    reads older
  {
    forall b :: 0 <= b < pos && b < |older.lay.load| ==> older.lay.load[b] == 0
  }

  /** While the older table holds nodes, the cursor is inside it. */
  lemma CursorInside<V>(older: HTab<V>, pos: nat)
    requires older.Valid() && Swept(older, pos) && older.size > 0
    ensures older.tab != null && pos <= older.mask
  {
    SoundChained(older.lay, older.mask, older.size);
    assert older.Nodes() != {};
    var n :| n in older.Nodes();
    assert older.lay.depth[n] < older.lay.load[older.lay.slot[n]];
  }

  /** The slot that a node's hash code selects among n. */
  ghost function SlotOf<V>(x: HNode<V>, n: nat): nat { if n == 0 then 0 else BitAnd(x.hcode, n - 1) }

  lemma SlotIs<V>(x: HNode<V>, e: nat)
    ensures SlotOf(x, Pow2(e)) == x.hcode % Pow2(e)
  {
    MaskIsRemainder(x.hcode, e);
  }

  ghost predicate NotAfter<V>(x: HNode<V>, y: HNode<V>, n: nat) { SlotOf(x, n) <= SlotOf(y, n) }

  /** No node of `rest` has a lower slot than one that was moved. */
  ghost predicate Lowest<V>(moved: set<HNode<V>>, rest: set<HNode<V>>, n: nat) {
    var low := forall x, y {:trigger NotAfter(x, y, n)} :: x in moved && y in rest ==> NotAfter(x, y, n);
    low
  }

  /** The node at the cursor has the lowest slot. */
  lemma HeadLowest<V>(t: HTab<V>, pos: nat, cap: nat)
    requires cap == t.mask + 1 && t.Valid() && Swept(t, pos) && t.tab != null && pos <= t.mask && t.tab[pos] != null
    ensures Lowest({t.tab[pos]}, t.Nodes(), cap)
  {
    HeadSlot(t, pos, cap);
    forall y | y in t.Nodes()
      ensures NotAfter(t.tab[pos], y, cap)
    {
      SlotAbove(t, pos, y, cap);
    }
  }

  lemma HeadSlot<V>(t: HTab<V>, pos: nat, cap: nat)
    requires cap == t.mask + 1 && t.Valid() && t.tab != null && pos <= t.mask && t.tab[pos] != null
    ensures SlotOf(t.tab[pos], cap) == pos
  {
    MissStart(t.lay, t.mask, t.size, pos, Id(0, []));
    assert InSlot(t.lay, t.tab[pos], t.mask);
  }

  lemma SlotAbove<V>(t: HTab<V>, pos: nat, y: HNode<V>, cap: nat)
    requires cap == t.mask + 1 && t.Valid() && Swept(t, pos) && t.tab != null && y in t.Nodes()
    ensures SlotOf(y, cap) >= pos
  {
    SoundChained(t.lay, t.mask, t.size);
    assert InSlot(t.lay, y, t.mask);
    assert t.lay.depth[y] < t.lay.load[t.lay.slot[y]];
  }

  /** ht_unlink from the older table. */
  method UnlinkOlder<V>(older: HTab<V>, newer: HTab<V>, pos: nat, prev: HNode?<V>, node: HNode<V>) returns (destroyed: bool)
    requires Apart(older, newer) && Swept(older, pos)
    requires older.tab != null && node in older.Nodes() && Shaped(older.lay) && Precedes(older.lay, prev, node)
    modifies older`size, older`lay, older.tab, older.Nodes()`next
    ensures Apart(older, newer) && Swept(older, pos) && older.size == old(older.size) - 1
    ensures older.Nodes() == old(older.Nodes()) - {node} && destroyed == node.container
    ensures older.Nodes() + newer.Nodes() == old(older.Nodes() + newer.Nodes()) - {node}
  {
    assert allocated(newer.Nodes());
    destroyed := older.Unlink(prev, node);
  }

  /** ht_unlink from the newer table. */
  method UnlinkNewer<V>(older: HTab<V>, newer: HTab<V>, prev: HNode?<V>, node: HNode<V>) returns (destroyed: bool)
    requires Apart(older, newer)
    requires newer.tab != null && node in newer.Nodes() && Shaped(newer.lay) && Precedes(newer.lay, prev, node)
    modifies newer`size, newer`lay, newer.tab, newer.Nodes()`next
    ensures Apart(older, newer) && newer.size == old(newer.size) - 1
    ensures newer.Nodes() == old(newer.Nodes()) - {node} && destroyed == node.container
    ensures older.Nodes() + newer.Nodes() == old(older.Nodes() + newer.Nodes()) - {node}
  {
    assert allocated(older.Nodes());
    destroyed := newer.Unlink(prev, node);
  }

  /** ht_unlink at the cursor. */
  method PopCursor<V>(older: HTab<V>, newer: HTab<V>, pos: nat) returns (node: HNode<V>, destroyed: bool)
    requires Apart(older, newer) && Swept(older, pos)
    requires older.tab != null && pos <= older.mask && older.tab[pos] != null
    modifies older`size, older`lay, older.tab, older.Nodes()`next
    ensures Apart(older, newer) && Swept(older, pos) && older.size == old(older.size) - 1
    ensures node in old(older.Nodes()) && older.Nodes() == old(older.Nodes()) - {node} && destroyed == node.container
    ensures node == old(older.tab[pos])
  {
    node := older.tab[pos];
    MissStart(older.lay, older.mask, older.size, pos, Id(0, []));
    destroyed := UnlinkOlder(older, newer, pos, null, node);
  }

  /** ht_insert into the newer table. */
  method PutNewer<V>(older: HTab<V>, newer: HTab<V>, node: HNode<V>)
    requires Apart(older, newer) && newer.tab != null && node !in older.Nodes() && node !in newer.Nodes()
    modifies newer`size, newer`lay, newer.tab, node`next
    ensures Apart(older, newer)
    ensures newer.size == old(newer.size) + 1 && newer.Nodes() == old(newer.Nodes()) + {node}
  {
    assert allocated(older.Nodes());
    newer.Insert(node);
  }

  /** The node at the cursor moves to the newer table. */
  method MoveOne<V>(older: HTab<V>, newer: HTab<V>, pos: nat) returns (node: HNode<V>, destroyed: bool)
    requires Apart(older, newer) && Swept(older, pos) && newer.tab != null
    requires older.tab != null && pos <= older.mask && older.tab[pos] != null
    modifies older`size, older`lay, newer`size, newer`lay, older.tab, newer.tab, older.Nodes()`next
    ensures Apart(older, newer) && Swept(older, pos)
    ensures older.size == old(older.size) - 1 && newer.size == old(newer.size) + 1
    ensures node in old(older.Nodes()) && older.Nodes() == old(older.Nodes()) - {node}
    ensures newer.Nodes() == old(newer.Nodes()) + {node} && destroyed == node.container
    ensures node == old(older.tab[pos])
  {
    node, destroyed := PopCursor(older, newer, pos);
    PutNewer(older, newer, node);
  }

  /** The nodes whose value ht_unlink tears down. */
  ghost function Containers<V>(s: set<HNode<V>>): set<HNode<V>> {
    set n | n in s && n.container
  }

  /**
   `moved` went from the older set o0 to the newer set n0, giving o and n, from the lowest of `cap` slots; `gone` lost
   their values on the way.
   */
  ghost predicate Shifted<V>(o0: set<HNode<V>>, n0: set<HNode<V>>, o: set<HNode<V>>, n: set<HNode<V>>,
                             moved: set<HNode<V>>, gone: set<HNode<V>>, cap: nat)
  {
    var ok := moved <= o0 && o == o0 - moved && n == n0 + moved && gone == Containers(moved) && Lowest(moved, o, cap);
    ok
  }

  lemma ShiftedFacts<V>(o0: set<HNode<V>>, n0: set<HNode<V>>, o: set<HNode<V>>, n: set<HNode<V>>,
                        moved: set<HNode<V>>, gone: set<HNode<V>>, cap: nat)
    requires Shifted(o0, n0, o, n, moved, gone, cap)
    ensures moved == o0 - o && gone == Containers(moved) && o + n == o0 + n0 && Lowest(moved, o, cap)
  {
  }

  lemma ShiftedTwice<V>(o0: set<HNode<V>>, n0: set<HNode<V>>, o: set<HNode<V>>, n: set<HNode<V>>,
                        o': set<HNode<V>>, n': set<HNode<V>>, m: set<HNode<V>>, g: set<HNode<V>>,
                        m': set<HNode<V>>, g': set<HNode<V>>, cap: nat)
    requires Shifted(o0, n0, o, n, m, g, cap) && Shifted(o, n, o', n', m', g', cap)
    ensures Shifted(o0, n0, o', n', m + m', g + g', cap) && o' <= o0
  {
  }

  lemma ShiftedNone<V>(o: set<HNode<V>>, n: set<HNode<V>>, cap: nat)
    ensures Shifted(o, n, o, n, {}, {}, cap)
  {
  }

  lemma ShiftedOne<V>(o: set<HNode<V>>, n: set<HNode<V>>, o': set<HNode<V>>, n': set<HNode<V>>, x: HNode<V>, cap: nat)
    requires x in o && o' == o - {x} && n' == n + {x} && Lowest({x}, o, cap)
    ensures Shifted(o, n, o', n', {x}, if x.container then {x} else {}, cap)
  {
    assert Containers({x}) == if x.container then {x} else {};
  }

  /** One turn of hm_rehash_help's loop: skip an empty slot or move one node. */
  method Turn<V>(older: HTab<V>, newer: HTab<V>, pos0: nat, ghost cap: nat)
    returns (pos: nat, work: nat, destroyed: set<HNode<V>>, ghost moved: set<HNode<V>>)
    requires cap == older.mask + 1 && Apart(older, newer) && Swept(older, pos0) && newer.tab != null && older.size > 0
    modifies older`size, older`lay, newer`size, newer`lay, older.tab, newer.tab, older.Nodes()`next
    ensures Apart(older, newer) && Swept(older, pos)
    ensures work <= 1 && older.size == old(older.size) - work && newer.size == old(newer.size) + work
    ensures work == 0 ==> pos0 < pos <= older.mask + 1
    ensures Shifted(old(older.Nodes()), old(newer.Nodes()), older.Nodes(), newer.Nodes(), moved, destroyed, cap)
  {
    pos, work, destroyed, moved := pos0, 0, {}, {};
    ghost var o, n := older.Nodes(), newer.Nodes();
    CursorInside(older, pos);
    if older.tab[pos] == null {
      ShiftedNone(o, n, cap);
      MissStart(older.lay, older.mask, older.size, pos, Id(0, []));
      pos := pos + 1;
    } else {
      HeadLowest(older, pos, cap);
      var node, gone := MoveOne(older, newer, pos);
      ShiftedOne(o, n, older.Nodes(), newer.Nodes(), node, cap);
      work, moved := 1, {node};
      if gone {
        destroyed := {node};
      }
    }
  }

  /** hm_rehash_help's loop: at most 128 nodes move; slots found empty cost no work. */
  method Migrate<V>(older: HTab<V>, newer: HTab<V>, pos0: nat, ghost cap: nat)
    returns (pos: nat, destroyed: set<HNode<V>>, ghost moved: set<HNode<V>>)
    requires Apart(older, newer) && Swept(older, pos0) && (older.size > 0 ==> newer.tab != null)
    requires older.tab != null ==> cap == older.mask + 1
    modifies older`size, older`lay, newer`size, newer`lay, older.tab, newer.tab, older.Nodes()`next
    ensures Apart(older, newer) && Swept(older, pos)
    ensures older.size == if old(older.size) < 128 then 0 else old(older.size) - 128
    ensures newer.size + older.size == old(newer.size) + old(older.size)
    ensures Shifted(old(older.Nodes()), old(newer.Nodes()), older.Nodes(), newer.Nodes(), moved, destroyed, cap)
  {
    pos, destroyed, moved := pos0, {}, {};
    var nwork := 0;
    ghost var o0, n0 := older.Nodes(), newer.Nodes();
    ShiftedNone(o0, n0, cap);
    while nwork < REHASHING_WORK && older.size > 0
      invariant Apart(older, newer) && Swept(older, pos)
      invariant nwork <= REHASHING_WORK && nwork + older.size == old(older.size)
      invariant newer.size == old(newer.size) + nwork && older.Nodes() <= o0
      invariant Shifted(o0, n0, older.Nodes(), newer.Nodes(), moved, destroyed, cap)
      decreases older.size, older.mask + 1 - pos
    {
      ghost var o, n := older.Nodes(), newer.Nodes();
      var work, gone;
      ghost var went;
      pos, work, gone, went := Turn(older, newer, pos, cap);
      ShiftedTwice(o0, n0, o, n, older.Nodes(), newer.Nodes(), moved, destroyed, went, gone, cap);
      nwork, destroyed, moved := nwork + work, destroyed + gone, moved + went;
    }
  }

  /** The numbers of a map: capacity n and size of the older table (n == 0 when there is none), and of the newer one. */
  datatype Load = Load(n: nat, os: nat, cap: nat, ns: nat)

  /** What a map holds: the nodes of the older and of the newer table, and the numbers. */
  datatype Snap<!V> = Snap(o: set<HNode<V>>, n: set<HNode<V>>, x: Load) {
    ghost function All(): set<HNode<V>> { o + n }
  }

  /**
   The migration keeps ahead of growth: with n older slots, older.size + 128 * (total - 8n + 1) <= 8n + slack.
   Without a migration the newer table is below its load limit.
   */
  ghost predicate Paced(x: Load, slack: nat) {
    if x.cap == 0 then x.n == 0 && x.os == 0 && x.ns == 0
    else if x.n == 0 then x.os == 0 && x.ns < MAX_LOAD_FACTOR * x.cap
    else
      && x.cap == 2 * x.n
      && x.os + REHASHING_WORK * (x.os + x.ns - MAX_LOAD_FACTOR * x.n + 1) <= MAX_LOAD_FACTOR * x.n + slack
  }

  /** However far the migration has come, the newer table is below its load limit. */
  lemma PacedLoad(x: Load)
    requires Paced(x, REHASHING_WORK) && x.cap > 0
    ensures x.ns < 8 * x.cap && x.os + x.ns < 8 * x.cap
  {
  }

  /** ht_insert into the newer table, created with 4 slots on first use. */
  ghost function Placed(x: Load): Load {
    Load(x.n, x.os, if x.cap == 0 then 4 else x.cap, x.ns + 1)
  }

  /** The load limit is reached while no migration is under way. */
  ghost predicate Full(x: Load) {
    x.n == 0 && x.ns >= MAX_LOAD_FACTOR * x.cap
  }

  /** A full newer table becomes the older one. */
  ghost function Started(x: Load): Load {
    if Full(x) then Load(x.cap, x.ns, 2 * x.cap, 0) else x
  }

  /** hm_rehash_help's loop: up to 128 nodes migrate. */
  ghost function Helped(y: Load): Load {
    var left := if y.os < REHASHING_WORK then 0 else y.os - REHASHING_WORK;
    Load(y.n, left, y.cap, y.ns + y.os - left)
  }

  /** An emptied older table is dropped. */
  ghost function Dropped(y: Load): Load {
    y.(n := if y.os == 0 then 0 else y.n)
  }

  /** One whole hm_insert. */
  ghost function AfterInsert(x: Load): Load {
    Dropped(Helped(Started(Placed(x))))
  }

  /** One hm_delete that finds its key. */
  ghost predicate AfterDelete(x: Load, y: Load) {
    (x.os > 0 && y == x.(os := x.os - 1)) || (x.ns > 0 && y == x.(ns := x.ns - 1))
  }

  lemma PacedInsert(x: Load)
    requires Paced(x, 0)
    ensures Paced(AfterInsert(x), 0)
  {
  }

  lemma PacedDelete(x: Load, y: Load)
    requires Paced(x, 0) && AfterDelete(x, y)
    ensures Paced(y, 0)
  {
  }

  /** A call that inserts, one that deletes, or one that does neither. */
  datatype Kind = Ins | Del | Neither

  ghost predicate LoadStep(x: Load, k: Kind, y: Load) {
    match k case Ins => y == AfterInsert(x) case Del => AfterDelete(x, y) case Neither => y == x
  }

  ghost predicate LoadRun(tr: seq<Load>, ops: seq<Kind>) {
    |tr| == |ops| + 1 && forall i :: 0 <= i < |ops| ==> LoadStep(tr[i], ops[i], tr[i + 1])
  }

  ghost function Inserts(ops: seq<Kind>): nat {
    if ops == [] then 0 else (if ops[0].Ins? then 1 else 0) + Inserts(ops[1..])
  }

  lemma PacedStep(x: Load, k: Kind, y: Load)
    requires Paced(x, 0) && LoadStep(x, k, y)
    ensures Paced(y, 0)
  {
    PacedInsert(x);
  }

  /** Every run keeps the pace. */
  lemma {:induction false} PacedRun(tr: seq<Load>, ops: seq<Kind>)
    requires LoadRun(tr, ops) && Paced(tr[0], 0)
    ensures Paced(tr[|ops|], 0)
  {
    if ops != [] {
      PacedStep(tr[0], ops[0], tr[1]);
      LoadRunTail(tr, ops);
      PacedRun(tr[1..], ops[1..]);
    }
  }

  lemma LoadRunTail(tr: seq<Load>, ops: seq<Kind>)
    requires LoadRun(tr, ops) && ops != []
    ensures LoadRun(tr[1..], ops[1..])
  {
    forall i | 0 <= i < |ops[1..]|
      ensures LoadStep(tr[1..][i], ops[1..][i], tr[1..][i + 1])
    {
      assert ops[1..][i] == ops[i + 1] && tr[1..][i] == tr[i + 1] && tr[1..][i + 1] == tr[i + 2];
    }
  }

  /**
   Migration finishes in time: whatever deletes come in between, a run whose inserts pay for the older
   table's nodes at 128 each passes through a state without an older table.
   */
  lemma {:induction false} MigrationEnds(tr: seq<Load>, ops: seq<Kind>)
    requires LoadRun(tr, ops) && Paced(tr[0], 0) && tr[0].n > 0
    requires Inserts(ops) > 0 && 128 * Inserts(ops) >= tr[0].os
    ensures exists i :: 0 <= i <= |ops| && tr[i].n == 0
  {
    PacedStep(tr[0], ops[0], tr[1]);
    LoadRunTail(tr, ops);
    if tr[1].n > 0 {
      MigrationEnds(tr[1..], ops[1..]);
      var i :| 0 <= i <= |ops[1..]| && tr[1..][i].n == 0;
      assert tr[i + 1].n == 0;
    }
  }

  class HMap<V> {
    const older: HTab<V>
    const newer: HTab<V>
    var migratePos: nat

    ghost function Nodes(): set<HNode<V>>
      reads this, older, newer
    {
      older.Nodes() + newer.Nodes()
    }

    /** Each bucket array in use was in use before or is newly allocated. */
    twostate predicate NewArrays()
      reads older, newer
    {
      && (older.tab == null || older.tab == old(older.tab) || older.tab == old(newer.tab) || fresh(older.tab))
      && (newer.tab == null || newer.tab == old(newer.tab) || fresh(newer.tab))
    }

    ghost function View(): Snap<V>
      reads this, older, newer
    {
      Snap(older.Nodes(), newer.Nodes(), Numbers())
    }

    ghost function Numbers(): Load
      reads this, older, newer
    {
      Load(if older.tab == null then 0 else older.mask + 1, older.size,
           if newer.tab == null then 0 else newer.mask + 1, newer.size)
    }

    ghost predicate Intact()
      reads this, older, newer, older.tab, newer.tab, older.Nodes(), newer.Nodes()
    {
      var apart, swept := Apart(older, newer), Swept(older, migratePos);
      apart && swept
    }

    ghost predicate Valid()
      reads this, older, newer, older.tab, newer.tab, older.Nodes(), newer.Nodes()
    {
      var intact, paced := Intact(), Paced(Numbers(), 0);
      intact && paced
    }

    constructor ()
      ensures Valid() && Nodes() == {} && fresh(older) && fresh(newer) && older.tab == null && newer.tab == null
    {
      older := new HTab();
      newer := new HTab();
      migratePos := 0;
    }

    /** hm_size */
    method Size() returns (n: nat)
      requires Valid()
      ensures n == |Nodes()|
    {
      if older.tab != null { SoundChained(older.lay, older.mask, older.size); }
      if newer.tab != null { SoundChained(newer.lay, newer.mask, newer.size); }
      n := newer.size + older.size;
    }

    /** hm_lookup */
    method Lookup(id: Id) returns (node: HNode?<V>)
      requires Valid()
      ensures node == null ==> forall n :: n in Nodes() ==> n.Ident() != id
      ensures node != null ==> node in Nodes() && node.Ident() == id
    {
      var prev;
      assert allocated(newer.Nodes());
      node, prev := older.Lookup(id);
      if node == null {
        node, prev := newer.Lookup(id);
      }
    }

    /** hm_keys: every node's key once, newer table first. */
    method Keys() returns (keys: seq<seq<Byte>>, ghost ns: seq<HNode<V>>)
      requires Valid()
      ensures |keys| == |ns| && forall i :: 0 <= i < |ns| ==> keys[i] == ns[i].key
      ensures forall i, j :: 0 <= i < j < |ns| ==> ns[i] != ns[j]
      ensures Nodes() == set n | n in ns
    {
      assert allocated(older.Nodes());
      var a, b;
      ghost var p, q;
      a, p := newer.ForEach();
      b, q := older.ForEach();
      keys, ns := a + b, p + q;
      forall i, j | 0 <= i < j < |ns| ensures ns[i] != ns[j] {
        assert i < |p| <= j ==> ns[i] in newer.Nodes() && ns[j] in older.Nodes();
      }
    }

    /** The sizes are the numbers of nodes. */
    lemma Counts()
      requires Valid()
      ensures |older.Nodes()| == Numbers().os && |newer.Nodes()| == Numbers().ns
    {
      if older.tab != null { SoundChained(older.lay, older.mask, older.size); }
      if newer.tab != null { SoundChained(newer.lay, newer.mask, newer.size); }
    }

    /** The two tables share no node, and a missing one has none. */
    lemma Tables()
      requires Valid()
      ensures older.Nodes() !! newer.Nodes() && (Numbers().n == 0 ==> older.Nodes() == {})
    {
      if older.tab == null {
        NoTable(older);
      }
    }

    lemma EmptyOlder()
      requires Valid() && older.size == 0
      ensures older.Nodes() == {}
    {
      NoNodes(older);
    }

    method DeleteOlder(prev: HNode?<V>, node: HNode<V>) returns (destroyed: bool)
      requires Valid() && older.tab != null && node in older.Nodes() && Shaped(older.lay) && Precedes(older.lay, prev, node)
      modifies older`size, older`lay, older.tab, older.Nodes()`next
      ensures Valid() && Nodes() == old(Nodes()) - {node} && AfterDelete(old(Numbers()), Numbers())
      ensures destroyed == node.container && older.Nodes() <= old(older.Nodes()) && newer.Nodes() <= old(newer.Nodes())
    {
      destroyed := UnlinkOlder(older, newer, migratePos, prev, node);
      PacedDelete(old(Numbers()), Numbers());
    }

    method DeleteNewer(prev: HNode?<V>, node: HNode<V>) returns (destroyed: bool)
      requires Valid() && newer.tab != null && node in newer.Nodes() && Shaped(newer.lay) && Precedes(newer.lay, prev, node)
      modifies newer`size, newer`lay, newer.tab, newer.Nodes()`next
      ensures Valid() && Nodes() == old(Nodes()) - {node} && AfterDelete(old(Numbers()), Numbers())
      ensures destroyed == node.container && older.Nodes() <= old(older.Nodes()) && newer.Nodes() <= old(newer.Nodes())
    {
      destroyed := UnlinkNewer(older, newer, prev, node);
      PacedDelete(old(Numbers()), Numbers());
    }

    /** The two ht_lookup calls of hm_delete. */
    method Find(id: Id) returns (node: HNode?<V>, prev: HNode?<V>, inOlder: bool)
      requires Valid()
      ensures Valid()
      ensures node == null ==> forall n :: n in Nodes() ==> n.Ident() != id
      ensures node != null ==> node.Ident() == id && node in Nodes()
      ensures node != null && inOlder ==>
        older.tab != null && node in older.Nodes() && Shaped(older.lay) && Precedes(older.lay, prev, node)
      ensures node != null && !inOlder ==>
        newer.tab != null && node in newer.Nodes() && Shaped(newer.lay) && Precedes(newer.lay, prev, node)
    {
      assert allocated(newer.Nodes()) && allocated(older.Nodes());
      inOlder := true;
      node, prev := older.Lookup(id);
      if node == null {
        inOlder := false;
        node, prev := newer.Lookup(id);
      }
    }

    /** hm_delete. `gone` is the node taken out; `destroyed` says whether its value was torn down. */
    method Delete(id: Id) returns (deleted: bool, destroyed: bool, ghost gone: HNode?<V>)
      requires Valid()
      modifies older`size, older`lay, newer`size, newer`lay, older.tab, newer.tab, Nodes()`next
      ensures Valid() && (deleted <==> gone != null)
      ensures gone != null ==> gone in old(Nodes()) && gone.Ident() == id && Nodes() == old(Nodes()) - {gone}
      ensures gone != null ==> AfterDelete(old(Numbers()), Numbers()) && destroyed == gone.container
      ensures gone == null ==> (forall n :: n in Nodes() ==> n.Ident() != id) && Nodes() == old(Nodes()) && !destroyed
      ensures older.Nodes() <= old(older.Nodes()) && newer.Nodes() <= old(newer.Nodes())
      ensures gone == null ==> View() == old(View())
    {
      var node, prev, inOlder := Find(id);
      deleted, destroyed, gone := node != null, false, node;
      if node != null {
        if inOlder {
          destroyed := DeleteOlder(prev, node);
        } else {
          destroyed := DeleteNewer(prev, node);
        }
      }
    }

    /** hm_rehash */
    method Rehash()
      requires Apart(older, newer) && newer.tab != null && older.tab == null
      modifies this`migratePos, older, newer
      ensures Intact() && newer.tab != null && NewArrays()
      ensures View() == Snap(old(newer.Nodes()), {}, Load(old(newer.mask) + 1, old(newer.size), 2 * (old(newer.mask) + 1), 0))
    {
      older.Assign(newer);
      newer.Init(2 * (older.mask + 1), older.log + 1);
      migratePos := 0;
    }

    /** hm_rehash_help's second half: an emptied older table is dropped. */
    method DropOlder()
      requires Intact()
      modifies older
      ensures Intact() && NewArrays()
      ensures View() == old(View()).(x := Dropped(old(Numbers())))
    {
      if older.tab == null {
        NoTable(older);
      } else if older.size == 0 {
        NoNodes(older);
        older.Reset();
      }
    }

    /** hm_insert's first branch: a newer table exists. */
    method Provide()
      requires Intact()
      modifies newer
      ensures Intact() && newer.tab != null && NewArrays()
      ensures View() == old(View()).(x := old(Numbers()).(cap := if old(newer.tab) == null then 4 else old(newer.mask) + 1))
    {
      if newer.tab == null {
        NoTable(newer);
        newer.Init(4, 2);
      }
    }

    /** ht_insert into the newer table. */
    method Add(node: HNode<V>)
      requires Intact() && newer.tab != null && node !in Nodes()
      modifies newer`size, newer`lay, newer.tab, node`next
      ensures Intact() && older.tab == old(older.tab) && newer.tab == old(newer.tab)
      ensures View() == Snap(old(older.Nodes()), old(newer.Nodes()) + {node}, old(Numbers()).(ns := old(newer.size) + 1))
    {
      PutNewer(older, newer, node);
    }

    method Place(node: HNode<V>)
      requires Intact() && node !in Nodes()
      modifies this`migratePos, older, newer, older.tab, newer.tab, Nodes()`next, node`next
      ensures Intact() && newer.tab != null && NewArrays()
      ensures View() == PlacedView(old(View()), node)
    {
      Provide();
      Add(node);
    }

    /** hm_insert's check of the load limit. */
    method Start()
      requires Intact() && newer.tab != null
      modifies this`migratePos, older, newer
      ensures Intact() && newer.tab != null && NewArrays()
      ensures View() == StartedView(old(View()))
    {
      if older.tab == null {
        NoTable(older);
        var threshold := (newer.mask + 1) * MAX_LOAD_FACTOR;
        if newer.size >= threshold {
          Rehash();
        }
      }
    }

    /** hm_insert before its call of hm_rehash_help. */
    method Admit(node: HNode<V>)
      requires Intact() && node !in Nodes()
      modifies this`migratePos, older, newer, older.tab, newer.tab, Nodes()`next, node`next
      ensures Intact() && newer.tab != null && NewArrays()
      ensures View() == StartedView(PlacedView(old(View()), node))
    {
      Place(node);
      Start();
    }

    /** hm_rehash_help's loop, from this map's cursor. */
    method Help() returns (destroyed: set<HNode<V>>, ghost moved: set<HNode<V>>)
      requires Intact() && newer.tab != null
      modifies this`migratePos, older`size, older`lay, newer`size, newer`lay, older.tab, newer.tab, older.Nodes()`next
      ensures Intact() && older.tab == old(older.tab) && newer.tab == old(newer.tab)
      ensures moved <= old(older.Nodes()) && destroyed == Containers(moved)
      ensures View() == HelpedView(old(View()), moved) && Lowest(moved, older.Nodes(), old(Numbers()).n)
    {
      ghost var cap := Numbers().n;
      destroyed, moved := Run(cap);
      ShiftedFacts(old(older.Nodes()), old(newer.Nodes()), older.Nodes(), newer.Nodes(), moved, destroyed, cap);
    }

    method Run(ghost cap: nat) returns (destroyed: set<HNode<V>>, ghost moved: set<HNode<V>>)
      requires cap == Numbers().n && Intact() && newer.tab != null
      modifies this`migratePos, older`size, older`lay, newer`size, newer`lay, older.tab, newer.tab, older.Nodes()`next
      ensures Intact()
      ensures Shifted(old(older.Nodes()), old(newer.Nodes()), older.Nodes(), newer.Nodes(), moved, destroyed, cap)
      ensures older.size == if old(older.size) < REHASHING_WORK then 0 else old(older.size) - REHASHING_WORK
      ensures newer.size + older.size == old(newer.size) + old(older.size)
    {
      var pos;
      pos, destroyed, moved := Migrate(older, newer, migratePos, cap);
      migratePos := pos;
    }

    /** hm_rehash_help */
    method RehashHelp() returns (destroyed: set<HNode<V>>, ghost moved: set<HNode<V>>)
      requires Intact() && newer.tab != null
      modifies this`migratePos, older, newer`size, newer`lay, older.tab, newer.tab, older.Nodes()`next
      ensures Intact() && NewArrays()
      ensures moved <= old(older.Nodes()) && destroyed == Containers(moved)
      ensures View() == DroppedView(HelpedView(old(View()), moved)) && Lowest(moved, View().o, old(Numbers()).n)
    {
      destroyed, moved := Help();
      DropOlder();
    }

    /**
     hm_insert. `moved` are the nodes this call migrated, those of the lowest slots; `destroyed` are those of them whose
     ZSET or HSET value ht_unlink tore down on the way.
     */
    method Insert(node: HNode<V>) returns (destroyed: set<HNode<V>>, ghost moved: set<HNode<V>>)
      requires Valid() && node !in Nodes()
      modifies this`migratePos, older, newer, older.tab, newer.tab, Nodes()`next, node`next
      ensures Valid() && NewArrays()
      ensures View() == Inserted(old(View()), node, moved)
      ensures moved <= StartedView(PlacedView(old(View()), node)).o && destroyed == Containers(moved)
      ensures destroyed == Containers(StartedView(PlacedView(old(View()), node)).o - older.Nodes())
      ensures Lowest(moved, older.Nodes(), StartedView(PlacedView(old(View()), node)).x.n)
      ensures Numbers().os == 0 ==> View().o == {}
      ensures Nodes() == old(Nodes()) + {node}
    {
      if older.tab == null { NoTable(older); }
      ghost var s := View();
      PacedInsert(Numbers());
      Admit(node);
      destroyed, moved := RehashHelp();
      InsertHolds(s, node, moved);
      MovedOut(StartedView(PlacedView(s, node)).o, moved);
      if older.size == 0 { EmptyOlder(); }
    }
  }

  /** The whole of hm_insert on what the map holds. */
  ghost function Inserted<V>(s: Snap<V>, node: HNode<V>, moved: set<HNode<V>>): Snap<V> {
    DroppedView(HelpedView(StartedView(PlacedView(s, node)), moved))
  }

  ghost function PlacedView<V>(s: Snap<V>, node: HNode<V>): Snap<V> {
    Snap(s.o, s.n + {node}, Placed(s.x))
  }

  ghost function StartedView<V>(s: Snap<V>): Snap<V> {
    if Full(s.x) then Snap(s.n, {}, Started(s.x)) else s
  }

  ghost function HelpedView<V>(s: Snap<V>, moved: set<HNode<V>>): Snap<V> {
    Snap(s.o - moved, s.n + moved, Helped(s.x))
  }

  ghost function DroppedView<V>(s: Snap<V>): Snap<V> {
    s.(x := Dropped(s.x))
  }

  lemma MovedOut<V>(o: set<HNode<V>>, moved: set<HNode<V>>)
    requires moved <= o
    ensures o - (o - moved) == moved
  {
  }

  lemma NoTable<V>(t: HTab<V>)
    requires t.Valid() && t.tab == null
    ensures t.Nodes() == {} && t.size == 0
  {
  }

  lemma NoNodes<V>(t: HTab<V>)
    requires t.Valid() && t.size == 0
    ensures t.Nodes() == {}
  {
    if t.tab != null { SoundChained(t.lay, t.mask, t.size); }
  }

  /** An insert adds the node, loses none, and leaves the newer table below its load limit. */
  lemma InsertHolds<V>(s: Snap<V>, node: HNode<V>, moved: set<HNode<V>>)
    requires Paced(s.x, 0) && (s.x.n == 0 ==> s.o == {}) && moved <= StartedView(PlacedView(s, node)).o
    ensures var t := Inserted(s, node, moved);
      t.All() == s.All() + {node} && t.x.ns < 8 * t.x.cap && t.x.os + t.x.ns == s.x.os + s.x.ns + 1
  {
    PacedInsert(s.x);
    PacedLoad(AfterInsert(s.x));
  }

  /** The nodes with a lower slot than `x`, and those with no higher one. */
  ghost function Under<V>(o: set<HNode<V>>, x: HNode<V>, n: nat): set<HNode<V>> {
    set y | y in o && SlotOf(y, n) < SlotOf(x, n)
  }

  ghost function UpTo<V>(o: set<HNode<V>>, x: HNode<V>, n: nat): set<HNode<V>> {
    set y | y in o && SlotOf(y, n) <= SlotOf(x, n)
  }

  /**
   Hash codes decide which nodes of the older table are moved: a node with at most 127 others up to its slot is, a node
   with 128 or more in lower slots is not. Only in the one slot where the work runs out does the order of a chain matter.
   */
  ghost predicate Decided<V>(o: set<HNode<V>>, moved: set<HNode<V>>, n: nat) {
    forall x :: x in o ==>
      (|UpTo(o, x, n)| <= 128 ==> x in moved) && (|Under(o, x, n)| >= 128 ==> x !in moved)
  }

  lemma MovedBySlot<V>(o: set<HNode<V>>, moved: set<HNode<V>>, n: nat)
    requires moved <= o && Lowest(moved, o - moved, n)
    requires |moved| == if |o| < REHASHING_WORK then |o| else REHASHING_WORK
    ensures Decided(o, moved, n)
  {
    forall x | x in o
      ensures |UpTo(o, x, n)| <= REHASHING_WORK ==> x in moved
      ensures |Under(o, x, n)| >= REHASHING_WORK ==> x !in moved
    {
      if x in moved {
        UnderMoved(o, moved, n, x);
      } else {
        MovedUpTo(o, moved, n, x);
      }
    }
  }

  lemma UnderMoved<V>(o: set<HNode<V>>, moved: set<HNode<V>>, n: nat, x: HNode<V>)
    requires moved <= o && Lowest(moved, o - moved, n) && x in moved
    ensures |Under(o, x, n)| < |moved|
  {
    forall y | y in Under(o, x, n)
      ensures y in moved - {x}
    {
      assert y in o - moved ==> NotAfter(x, y, n);
    }
    Within(Under(o, x, n), moved - {x});
  }

  lemma MovedUpTo<V>(o: set<HNode<V>>, moved: set<HNode<V>>, n: nat, x: HNode<V>)
    requires moved <= o && Lowest(moved, o - moved, n) && x in o - moved
    requires |moved| == if |o| < REHASHING_WORK then |o| else REHASHING_WORK
    ensures |UpTo(o, x, n)| > REHASHING_WORK
  {
    forall y | y in moved + {x}
      ensures y in UpTo(o, x, n)
    {
      assert y in moved ==> NotAfter(y, x, n);
    }
    Within(moved + {x}, UpTo(o, x, n));
    Within(moved + {x}, o);
  }

  lemma {:induction false} Within<T>(a: set<T>, b: set<T>)
    requires a <= b
    ensures |a| <= |b|
  {
    if a != {} {
      var x :| x in a;
      Within(a - {x}, b - {x});
    }
  }

  /** Which nodes an insert moves, from what the map held before it. */
  lemma InsertDecides<V>(s: Snap<V>, node: HNode<V>, moved: set<HNode<V>>)
    requires |s.o| == s.x.os && |s.n| == s.x.ns && node !in s.o + s.n
    requires var m, t := StartedView(PlacedView(s, node)), Inserted(s, node, moved);
      moved <= m.o && Lowest(moved, t.o, m.x.n) && |t.o| == t.x.os
    ensures var m := StartedView(PlacedView(s, node)); Decided(m.o, moved, m.x.n)
  {
    var m := StartedView(PlacedView(s, node));
    Parts(m.o, moved);
    MovedBySlot(m.o, moved, m.x.n);
  }

  lemma Parts<T>(a: set<T>, b: set<T>)
    requires b <= a
    ensures |a - b| == |a| - |b|
  {
  }

  /**
   ht_unlink destroys container values even when hm_rehash_help only moves the node: an insert that starts a migration of
   at most 128 nodes moves them all, and so destroys every ZSET and HSET value held, that of the new node included.
   */
  lemma MigrationDestroys<V>(s: Snap<V>, node: HNode<V>, moved: set<HNode<V>>)
    requires Full(Placed(s.x)) && s.x.ns < 128 && s.o == {} && moved <= StartedView(PlacedView(s, node)).o
    requires Inserted(s, node, moved).x.os == 0 ==> Inserted(s, node, moved).o == {}
    ensures Containers(moved) == Containers(s.n + {node})
  {
    assert moved == s.n + {node};
  }
}
