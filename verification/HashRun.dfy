/** The hash map over whole runs: in every intermediate state of every migration it is one plain map. */
module HashRun {
  import opened Wrappers
  import opened Bytes
  import opened HashTable
  import opened HashMap

  /** The nodes of a map, one per identity. */
  ghost predicate Refines<V>(ns: set<HNode<V>>, dict: map<Id, HNode<V>>) {
    && (forall id {:trigger dict[id]} :: id in dict ==> dict[id] in ns && dict[id].Ident() == id)
    && (forall n {:trigger n.Ident()} :: n in ns ==> n.Ident() in dict && dict[n.Ident()] == n)
  }

  lemma RefinesPut<V>(ns: set<HNode<V>>, dict: map<Id, HNode<V>>, n: HNode<V>)
    requires Refines(ns, dict) && n.Ident() !in dict
    ensures n !in ns && Refines(ns + {n}, dict[n.Ident() := n])
  {
  }

  lemma RefinesDrop<V>(ns: set<HNode<V>>, dict: map<Id, HNode<V>>, n: HNode<V>)
    requires Refines(ns, dict) && n in ns
    ensures Refines(ns - {n}, dict - {n.Ident()}) && n.Ident() in dict
  {
    var id := n.Ident();
    forall i | i in dict - {id}
      ensures dict[i] in ns - {n}
    {
      assert dict[i].Ident() == i;
    }
  }

  lemma {:induction false} RefinesSize<V>(ns: set<HNode<V>>, dict: map<Id, HNode<V>>)
    requires Refines(ns, dict)
    ensures |ns| == |dict|
    decreases ns
  {
    if n :| n in ns {
      RefinesDrop(ns, dict, n);
      RefinesSize(ns - {n}, dict - {n.Ident()});
      DropSize(dict, n.Ident());
    } else {
      NoneLeft(ns, dict);
    }
  }

  lemma NoneLeft<V>(ns: set<HNode<V>>, dict: map<Id, HNode<V>>)
    requires Refines(ns, dict) && ns == {}
    ensures dict == map[]
  {
    assert forall id :: id in dict ==> dict[id] in ns;
  }

  lemma DropSize<V>(dict: map<Id, HNode<V>>, id: Id)
    requires id in dict
    ensures |dict| == |dict - {id}| + 1
  {
    assert dict == (dict - {id})[id := dict[id]];
  }

  /** What an insert puts into the map. */
  datatype Entry<V> = Entry(key: seq<Byte>, container: bool, value: V)

  ghost function EntryOf<V>(n: HNode<V>): Entry<V> { Entry(n.key, n.container, n.owner) }

  /** The entry under each identity. */
  ghost function Values<V>(dict: map<Id, HNode<V>>): map<Id, Entry<V>> {
    map id | id in dict :: EntryOf(dict[id])
  }

  lemma ValuesPut<V>(dict: map<Id, HNode<V>>, n: HNode<V>)
    ensures Values(dict[n.Ident() := n]) == Values(dict)[n.Ident() := EntryOf(n)]
  {
  }

  lemma ValuesDrop<V>(dict: map<Id, HNode<V>>, id: Id)
    ensures Values(dict - {id}) == Values(dict) - {id}
    ensures id !in dict ==> Values(dict) - {id} == Values(dict)
  {
  }

  /** Insert if absent, as the commands do, delete, and look up. */
  datatype Op<V> = Put(key: seq<Byte>, hcode: nat, container: bool, value: V) | Del(id: Id) | Get(id: Id)

  ghost function OpId<V>(op: Op<V>): Id {
    if op.Put? then Id(op.hcode, CStr(op.key)) else op.id
  }

  ghost function Apply<V>(m: map<Id, Entry<V>>, op: Op<V>): map<Id, Entry<V>> {
    match op
    case Put(key, _, container, v) => if OpId(op) in m then m else m[OpId(op) := Entry(key, container, v)]
    case Del(id) => m - {id}
    case Get(_) => m
  }

  /** The value found: before a delete, before an insert, or by a lookup. */
  ghost function Answer<V>(m: map<Id, Entry<V>>, op: Op<V>): Option<V> {
    if OpId(op) in m then Some(m[OpId(op)].value) else None
  }

  ghost function ApplyAll<V>(ops: seq<Op<V>>): map<Id, Entry<V>> {
    if ops == [] then map[] else Apply(ApplyAll(ops[..|ops| - 1]), ops[|ops| - 1])
  }

  // Values torn down on the way.

  /**
   The nodes of the map when the migration before the latest one started, and when the latest one did; those whose
   values the latest one has destroyed, and those whose values any has.
   */
  datatype Tally<!V> = Tally(before: set<HNode<V>>, start: set<HNode<V>>, lost: set<HNode<V>>, ever: set<HNode<V>>) {
    ghost function Known(): set<HNode<V>> { before + start + lost + ever }
  }

  /**
   Of the nodes in the map, the latest migration has destroyed exactly the containers it started with and has moved, and
   those and the ones of the migration before it are all that were ever destroyed. It has moved the nodes it started
   with from the lowest slots.
   */
  ghost predicate Tallied<V>(s: Snap<V>, t: Tally<V>) {
    var all :=
      s.o <= t.start && (forall x :: x in t.before && x in s.All() ==> x in t.start) &&
      (forall x :: x in s.All() ==> (x in t.lost <==> x.container && x in t.start && x !in s.o)) &&
      (forall x :: x in s.All() ==> (x in t.ever <==> x.container && (x in t.before || (x in t.start && x !in s.o)))) &&
      Lowest((t.start * s.All()) - s.o, s.o, s.x.n);
    all
  }

  /** An insert starts a migration when it fills the newer table, and then a new tally. */
  ghost function TallyInsert<V>(s: Snap<V>, node: HNode<V>, destroyed: set<HNode<V>>, t: Tally<V>): Tally<V> {
    if Full(Placed(s.x)) then Tally(t.start, s.n + {node}, destroyed, t.ever + destroyed)
    else t.(lost := t.lost + destroyed, ever := t.ever + destroyed)
  }

  /** What a call has destroyed is added to the tally, or starts a new one with all nodes there are. */
  ghost predicate Torn<V>(t: Tally<V>, started: bool, nodes: set<HNode<V>>, destroyed: set<HNode<V>>, t': Tally<V>) {
    var sum := t' == if started then Tally(t.start, nodes, destroyed, t.ever + destroyed)
                     else t.(lost := t.lost + destroyed, ever := t.ever + destroyed);
    sum
  }

  lemma TornNone<V>(t: Tally<V>, nodes: set<HNode<V>>)
    ensures Torn(t, false, nodes, {}, t)
  {
    assert t.lost + {} == t.lost && t.ever + {} == t.ever;
  }

  lemma TornIs<V>(s: Snap<V>, n: HNode<V>, nodes: set<HNode<V>>, destroyed: set<HNode<V>>, t: Tally<V>)
    requires nodes == s.o + s.n + {n} && (Full(Placed(s.x)) ==> s.o == {})
    ensures Torn(t, Full(Placed(s.x)), nodes, destroyed, TallyInsert(s, n, destroyed, t))
  {
    assert s.o == {} ==> s.o + s.n + {n} == s.n + {n};
  }

  lemma TallyPut<V>(s: Snap<V>, node: HNode<V>, s': Snap<V>, destroyed: set<HNode<V>>, t: Tally<V>)
    requires Tallied(s, t) && s.o !! s.n && node !in s.All() + t.Known()
    requires Full(Placed(s.x)) ==> s.o == {}
    requires var m := StartedView(PlacedView(s, node));
      s'.o <= m.o && destroyed == Containers(m.o - s'.o) && Lowest(m.o - s'.o, s'.o, m.x.n) && (s'.o != {} ==> s'.x.n == m.x.n)
    requires s'.All() == s.All() + {node}
    ensures Tallied(s', TallyInsert(s, node, destroyed, t))
  {
    var t' := TallyInsert(s, node, destroyed, t);
    forall x, y | x in (t'.start * s'.All()) - s'.o && y in s'.o
      ensures NotAfter(x, y, s'.x.n)
    {
      MovedBefore(s, node, s', t, x, y);
    }
  }

  /** Moved by this call, or by one before it. */
  lemma MovedBefore<V>(s: Snap<V>, node: HNode<V>, s': Snap<V>, t: Tally<V>, x: HNode<V>, y: HNode<V>)
    requires Tallied(s, t) && node !in t.Known() && s'.All() == s.All() + {node}
    requires var m := StartedView(PlacedView(s, node)); s'.o <= m.o && Lowest(m.o - s'.o, s'.o, m.x.n) && s'.x.n == m.x.n
    requires x in s'.All() && x !in s'.o && y in s'.o && (if Full(Placed(s.x)) then x in s.n + {node} else x in t.start)
    ensures NotAfter(x, y, s'.x.n)
  {
    var m := StartedView(PlacedView(s, node));
    if x in m.o - s'.o {
      assert NotAfter(x, y, m.x.n);
    } else {
      assert x in (t.start * s.All()) - s.o && y in s.o;
      assert NotAfter(x, y, s.x.n);
    }
  }

  lemma TallyDrop<V>(s: Snap<V>, s': Snap<V>, x: HNode<V>, t: Tally<V>)
    requires Tallied(s, t) && s.o !! s.n && s'.o !! s'.n && s'.o <= s.o && s'.n <= s.n && s'.All() == s.All() - {x}
    requires s'.x.n == s.x.n
    ensures Tallied(s', t)
  {
    forall x, y | x in (t.start * s'.All()) - s'.o && y in s'.o
      ensures NotAfter(x, y, s'.x.n)
    {
      assert x in (t.start * s.All()) - s.o && y in s.o;
    }
  }

  /**
   What an insert does to the load of the tables and to values: torn down are those of the containers that leave the
   older table, and hash codes decide which those are.
   */
  ghost predicate InsertMoves<V>(s: Snap<V>, d: set<HNode<V>>, s': Snap<V>) {
    var o := if Full(Placed(s.x)) then s'.All() else s.o;
    var moves := s'.x == AfterInsert(s.x) && s'.o <= o && d == Containers(o - s'.o) &&
      Decided(o, o - s'.o, Started(Placed(s.x)).n);
    moves
  }

  lemma InsertMovesIs<V>(s: Snap<V>, node: HNode<V>, moved: set<HNode<V>>, d: set<HNode<V>>)
    requires (Full(Placed(s.x)) ==> s.o == {}) && moved <= StartedView(PlacedView(s, node)).o && d == Containers(moved)
    requires var m := StartedView(PlacedView(s, node)); Decided(m.o, moved, m.x.n)
    ensures InsertMoves(s, d, Inserted(s, node, moved))
  {
    var m, t := StartedView(PlacedView(s, node)), Inserted(s, node, moved);
    MovedOut(m.o, moved);
    assert Full(Placed(s.x)) ==> t.All() == m.o;
  }

  /** What a call does to the load of the tables and to values. */
  ghost predicate Moves<V>(op: Op<V>, f: Option<V>, s: Snap<V>, d: set<HNode<V>>, s': Snap<V>) {
    var moves := match KindOf(op, f)
      case Ins => InsertMoves(s, d, s')
      case Del => AfterDelete(s.x, s'.x) && d == {}
      case Neither => s' == s && d == {};
    moves
  }

  /** A call: its answer and what it destroyed, and the entries, the tables and the tally before and after it. */
  ghost predicate Did<V>(op: Op<V>, f: Option<V>, d: set<HNode<V>>, m: map<Id, Entry<V>>, s: Snap<V>, t: Tally<V>,
                         m': map<Id, Entry<V>>, s': Snap<V>, t': Tally<V>)
  {
    var did := f == Answer(m, op) && m' == Apply(m, op) && Moves(op, f, s, d, s') &&
      Torn(t, op.Put? && f == None && Full(Placed(s.x)), s'.All(), d, t');
    did
  }

  lemma DidInsert<V>(op: Op<V>, d: set<HNode<V>>, m: map<Id, Entry<V>>, s: Snap<V>, t: Tally<V>,
                     m': map<Id, Entry<V>>, s': Snap<V>, t': Tally<V>)
    requires op.Put? && OpId(op) !in m && m' == m[OpId(op) := Entry(op.key, op.container, op.value)]
    requires InsertMoves(s, d, s') && Torn(t, Full(Placed(s.x)), s'.All(), d, t')
    ensures Did(op, None, d, m, s, t, m', s', t')
  {
  }

  lemma DidDelete<V>(op: Op<V>, f: Option<V>, m: map<Id, Entry<V>>, s: Snap<V>, t: Tally<V>, m': map<Id, Entry<V>>, s': Snap<V>)
    requires op.Del? && f == Answer(m, op) && m' == m - {op.id}
    requires if f == None then s' == s else AfterDelete(s.x, s'.x)
    ensures Did(op, f, {}, m, s, t, m', s', t)
  {
    TornNone(t, s'.All());
  }

  lemma DidNothing<V>(op: Op<V>, f: Option<V>, m: map<Id, Entry<V>>, s: Snap<V>, t: Tally<V>)
    requires f == Answer(m, op) && (op.Get? || (op.Put? && f != None))
    ensures Did(op, f, {}, m, s, t, m, s, t)
  {
    TornNone(t, s.All());
  }

  /** An insert is one that has found nothing, a delete one that has found something. */
  ghost function KindOf<V>(op: Op<V>, f: Option<V>): Kind {
    if op.Put? && f == None then Ins else if op.Del? && f != None then Kind.Del else Neither
  }

  class Dict<V> {
    const hm: HMap<V>
    ghost var dict: map<Id, HNode<V>>
    ghost var tally: Tally<V>

    constructor ()
      ensures Valid() && dict == map[] && hm.Nodes() == {} && fresh(hm) && fresh(hm.older) && fresh(hm.newer)
      ensures hm.older.tab == null && hm.newer.tab == null && tally == Tally({}, {}, {}, {}) && hm.View() == Nothing()
    {
      hm := new HMap();
      dict := map[];
      tally := Tally({}, {}, {}, {});
    }

    ghost predicate Valid()
      reads this, hm, hm.older, hm.newer, hm.older.tab, hm.newer.tab, hm.older.Nodes(), hm.newer.Nodes()
    {
      var ok, one, tallied := hm.Valid(), Refines(hm.Nodes(), dict), Tallied(hm.View(), tally);
      ok && one && tallied
    }

    /** The tables hold the entries. */
    lemma Shows()
      requires Valid()
      ensures Shown(hm.View(), Values(dict))
    {
      hm.Counts();
      hm.Tables();
      ShownIs(hm.View(), dict);
    }

    /** hm_lookup */
    method Get(id: Id) returns (v: Option<V>)
      requires Valid()
      ensures Valid() && v == if id in Values(dict) then Some(Values(dict)[id].value) else None
    {
      var n := hm.Lookup(id);
      v := if n == null then None else Some(n.owner);
    }

    /** hm_size */
    method Size() returns (n: nat)
      requires Valid()
      ensures n == |dict| == |Values(dict)|
    {
      RefinesSize(hm.Nodes(), dict);
      assert Values(dict).Keys == dict.Keys;
      n := hm.Size();
    }

    /** hm_keys: the keys of all entries, each once. */
    method Keys() returns (keys: seq<seq<Byte>>, ghost ids: seq<Id>)
      requires Valid()
      ensures |keys| == |ids| == |dict|
      ensures forall i :: 0 <= i < |ids| ==> ids[i] in Values(dict) && keys[i] == Values(dict)[ids[i]].key
      ensures forall i, j :: 0 <= i < j < |ids| ==> ids[i] != ids[j]
    {
      ghost var ns;
      keys, ns := hm.Keys();
      ids := ListIds(ns, hm.Nodes(), dict);
    }

    /** hm_insert after a lookup has found nothing; `destroyed` are the nodes whose values it tore down. */
    method Put(key: seq<Byte>, hcode: nat, container: bool, value: V) returns (found: Option<V>, destroyed: set<HNode<V>>)
      requires Valid()
      modifies this, hm`migratePos, hm.older, hm.newer, hm.older.tab, hm.newer.tab, hm.Nodes()`next
      ensures Valid() && hm.NewArrays() && NewNodes()
      ensures Did(Op.Put(key, hcode, container, value), found, destroyed,
                  old(Values(dict)), old(hm.View()), old(tally), Values(dict), hm.View(), tally)
    {
      ghost var op, m, s, t := Op.Put(key, hcode, container, value), Values(dict), hm.View(), tally;
      destroyed := {};
      found := Get(Id(hcode, CStr(key)));
      assert hm.View() == s && Values(dict) == m && tally == t;
      if found == None {
        destroyed := PutNew(key, hcode, container, value);
        DidInsert(op, destroyed, m, s, t, Values(dict), hm.View(), tally);
      } else {
        DidNothing(op, found, m, s, t);
      }
    }

    method PutNew(key: seq<Byte>, hcode: nat, container: bool, value: V) returns (destroyed: set<HNode<V>>)
      requires Valid() && Id(hcode, CStr(key)) !in dict
      modifies this, hm`migratePos, hm.older, hm.newer, hm.older.tab, hm.newer.tab, hm.Nodes()`next
      ensures Valid() && hm.NewArrays() && NewNodes()
      ensures Values(dict) == old(Values(dict))[Id(hcode, CStr(key)) := Entry(key, container, value)]
      ensures Torn(old(tally), Full(Placed(old(hm.View()).x)), hm.View().All(), destroyed, tally)
      ensures InsertMoves(old(hm.View()), destroyed, hm.View())
    {
      ghost var s := hm.View();
      var n := NewNode(key, hcode, container, value);
      assert hm.View() == s;
      RefinesPut(hm.Nodes(), dict, n);
      ValuesPut(dict, n);
      destroyed := Link(n);
      OneNewNode(n);
    }

    twostate lemma OneNewNode(new n: HNode<V>)
      requires fresh(n) && hm.Nodes() == old(hm.Nodes()) + {n}
      ensures NewNodes()
    {
    }

    method NewNode(key: seq<Byte>, hcode: nat, container: bool, value: V) returns (n: HNode<V>)
      requires Valid()
      ensures Valid() && fresh(n) && n.Ident() == Id(hcode, CStr(key)) && EntryOf(n) == Entry(key, container, value)
      ensures hm.View() == old(hm.View()) && n !in tally.Known()
    {
      assert allocated(hm.older.Nodes()) && allocated(hm.newer.Nodes());
      assert allocated(tally.Known());
      n := new HNode(key, hcode, container, value);
    }

    method Link(n: HNode<V>) returns (destroyed: set<HNode<V>>)
      requires Valid() && n !in hm.Nodes() && Refines(hm.Nodes() + {n}, dict[n.Ident() := n])
      requires n !in tally.Known()
      modifies this, hm`migratePos, hm.older, hm.newer, hm.older.tab, hm.newer.tab, hm.Nodes()`next, n`next
      ensures Valid() && hm.NewArrays() && dict == old(dict)[n.Ident() := n] && hm.Nodes() == old(hm.Nodes()) + {n}
      ensures Torn(old(tally), Full(Placed(old(hm.View()).x)), hm.View().All(), destroyed, tally)
      ensures InsertMoves(old(hm.View()), destroyed, hm.View())
    {
      ghost var d, t := dict, tally;
      ghost var t';
      destroyed, t' := InsertNode(hm, n, t);
      Store(d[n.Ident() := n], t');
    }

    ghost method Store(d: map<Id, HNode<V>>, t: Tally<V>)
      requires hm.Valid() && Refines(hm.Nodes(), d) && Tallied(hm.View(), t)
      modifies this
      ensures Valid() && dict == d && tally == t && hm.View() == old(hm.View())
    {
      dict, tally := d, t;
    }

    twostate predicate NewNodes()
      reads this, hm, hm.older, hm.newer
    {
      var all := forall n :: n in hm.Nodes() ==> n in old(hm.Nodes()) || fresh(n);
      all
    }

    /** hm_delete */
    method Delete(id: Id) returns (deleted: bool)
      requires Valid()
      modifies this, hm.older, hm.newer, hm.older.tab, hm.newer.tab, hm.Nodes()`next
      ensures Valid() && Values(dict) == old(Values(dict)) - {id} && deleted == (id in old(dict))
      ensures hm.NewArrays() && NewNodes() && tally == old(tally)
      ensures if deleted then AfterDelete(old(hm.View()).x, hm.View().x) else hm.View() == old(hm.View())
    {
      ghost var d, ns, t := dict, hm.Nodes(), tally;
      ghost var gone;
      deleted, gone := Unlink(id);
      ValuesDrop(d, id);
      if gone != null {
        RefinesDrop(ns, d, gone);
        Store(d - {id}, t);
      } else {
        Absent(ns, d, id);
        Store(d, t);
      }
    }

    /** hm_lookup and hm_delete. */
    method Remove(id: Id) returns (found: Option<V>)
      requires Valid()
      modifies this, hm.older, hm.newer, hm.older.tab, hm.newer.tab, hm.Nodes()`next
      ensures Valid() && hm.NewArrays() && NewNodes()
      ensures Did(Op.Del(id), found, {}, old(Values(dict)), old(hm.View()), old(tally), Values(dict), hm.View(), tally)
    {
      ghost var m, s, t := Values(dict), hm.View(), tally;
      found := Get(id);
      assert hm.View() == s && Values(dict) == m && tally == t;
      var deleted := Delete(id);
      DidDelete(Op.Del(id), found, m, s, t, Values(dict), hm.View());
    }

    method Unlink(id: Id) returns (deleted: bool, ghost gone: HNode?<V>)
      requires Valid()
      modifies hm.older, hm.newer, hm.older.tab, hm.newer.tab, hm.Nodes()`next
      ensures hm.Valid() && hm.NewArrays() && (deleted <==> gone != null)
      ensures gone != null ==> gone in old(hm.Nodes()) && gone.Ident() == id && hm.Nodes() == old(hm.Nodes()) - {gone}
      ensures gone == null ==> (forall n :: n in hm.Nodes() ==> n.Ident() != id) && hm.Nodes() == old(hm.Nodes())
      ensures Tallied(hm.View(), tally)
      ensures if deleted then AfterDelete(old(hm.View()).x, hm.View().x) else hm.View() == old(hm.View())
    {
      ghost var s := hm.View();
      hm.Tables();
      var destroyed;
      deleted, destroyed, gone := hm.Delete(id);
      hm.Tables();
      if gone != null {
        TallyDrop(s, hm.View(), gone, tally);
      }
    }
  }

  /** hm_insert, with what it destroys. */
  method InsertNode<V>(hm: HMap<V>, n: HNode<V>, ghost t: Tally<V>) returns (destroyed: set<HNode<V>>, ghost t': Tally<V>)
    requires hm.Valid() && n !in hm.Nodes() + t.Known() && Tallied(hm.View(), t)
    modifies hm`migratePos, hm.older, hm.newer, hm.older.tab, hm.newer.tab, hm.Nodes()`next, n`next
    ensures hm.Valid() && hm.NewArrays() && hm.Nodes() == old(hm.Nodes()) + {n}
    ensures Tallied(hm.View(), t') && Torn(t, Full(Placed(old(hm.View()).x)), hm.View().All(), destroyed, t')
    ensures InsertMoves(old(hm.View()), destroyed, hm.View())
  {
    ghost var s := hm.View();
    hm.Tables();
    hm.Counts();
    ghost var moved;
    destroyed, moved := hm.Insert(n);
    hm.Counts();
    InsertDecides(s, n, moved);
    InsertMovesIs(s, n, moved, destroyed);
    MovedOut(StartedView(PlacedView(s, n)).o, moved);
    TallyPut(s, n, hm.View(), destroyed, t);
    TornIs(s, n, hm.View().All(), destroyed, t);
    t' := TallyInsert(s, n, destroyed, t);
  }

  method Do<V>(h: Dict<V>, op: Op<V>) returns (found: Option<V>, destroyed: set<HNode<V>>)
    requires h.Valid()
    modifies h, h.hm`migratePos, h.hm.older, h.hm.newer, h.hm.older.tab, h.hm.newer.tab, h.hm.Nodes()`next
    ensures h.Valid() && h.hm.NewArrays() && h.NewNodes()
    ensures Did(op, found, destroyed, old(Values(h.dict)), old(h.hm.View()), old(h.tally),
                Values(h.dict), h.hm.View(), h.tally)
  {
    if op.Put? {
      found, destroyed := h.Put(op.key, op.hcode, op.container, op.value);
    } else if op.Del? {
      found := h.Remove(op.id);
      destroyed := {};
    } else {
      found := h.Get(op.id);
      destroyed := {};
      DidNothing(op, found, Values(h.dict), h.hm.View(), h.tally);
    }
  }

  /** Each answer is the plain map's at that point of the run. */
  ghost predicate Answered<V>(ops: seq<Op<V>>, found: seq<Option<V>>) {
    var all := |found| <= |ops| && forall i :: 0 <= i < |found| ==> found[i] == Answer(ApplyAll(ops[..i]), ops[i]);
    all
  }

  lemma AnsweredMore<V>(ops: seq<Op<V>>, found: seq<Option<V>>, f: Option<V>)
    requires Answered(ops, found) && |found| < |ops| && f == Answer(ApplyAll(ops[..|found|]), ops[|found|])
    ensures Answered(ops, found + [f])
  {
  }

  lemma RunStep<V>(ops: seq<Op<V>>, i: nat)
    requires i < |ops|
    ensures ApplyAll(ops[..i + 1]) == Apply(ApplyAll(ops[..i]), ops[i])
  {
    assert ops[..i + 1][..i] == ops[..i];
  }

  /** The bucket arrays and nodes are newly allocated. */
  twostate predicate AllNew<V>(new h: Dict<V>)
    reads h, h.hm, h.hm.older, h.hm.newer
  {
    var arrays := (h.hm.older.tab != null ==> fresh(h.hm.older.tab)) && (h.hm.newer.tab != null ==> fresh(h.hm.newer.tab));
    var nodes := forall n :: n in h.hm.Nodes() ==> fresh(n);
    arrays && nodes
  }

  ghost function Union<V>(sets: seq<set<HNode<V>>>): set<HNode<V>> {
    if sets == [] then {} else Union(sets[..|sets| - 1]) + sets[|sets| - 1]
  }

  lemma UnionMore<V>(sets: seq<set<HNode<V>>>, from: nat, d: set<HNode<V>>)
    requires from <= |sets|
    ensures Union((sets + [d])[from..]) == Union(sets[from..]) + d
  {
    var u := (sets + [d])[from..];
    assert u[..|u| - 1] == sets[from..] && u[|u| - 1] == d;
  }

  /** A whole run: each call's answer, what it destroyed, and the map before each call and at the end. */
  datatype Run<!V> = Run(found: seq<Option<V>>, torn: seq<set<HNode<V>>>, trace: seq<Snap<V>>) {
    ghost predicate Sized(n: nat) { |found| == |torn| == n && |trace| == n + 1 }

    ghost function More(f: Option<V>, d: set<HNode<V>>, s: Snap<V>): Run<V> { Run(found + [f], torn + [d], trace + [s]) }

    /** The k-th call starts a migration: it inserts a node that fills the newer table. */
    ghost predicate Starts(ops: seq<Op<V>>, k: nat)
      requires k < |found| <= |ops| && k < |trace|
    {
      ops[k].Put? && found[k] == None && Full(Placed(trace[k].x))
    }

    /** The nodes there were when the k-th migration from the end started. */
    ghost function NodesAt(starts: seq<nat>, k: nat): set<HNode<V>> {
      if !(1 <= k <= |starts|) || starts[|starts| - k] + 1 >= |trace| then {} else trace[starts[|starts| - k] + 1].All()
    }
  }

  ghost function From(starts: seq<nat>): nat { if starts == [] then 0 else starts[|starts| - 1] }

  ghost function Noted(starts: seq<nat>, started: bool, k: nat): seq<nat> { if started then starts + [k] else starts }

  /** `starts` lists the calls that start a migration, in order. */
  ghost predicate Listed<V>(ops: seq<Op<V>>, run: Run<V>, starts: seq<nat>) {
    var all :=
      |run.found| <= |ops| && run.Sized(|run.found|) &&
      (forall i, j :: 0 <= i < j < |starts| ==> starts[i] < starts[j]) &&
      (forall i :: 0 <= i < |starts| ==> starts[i] < |run.found|) &&
      forall k :: 0 <= k < |run.found| ==> (k in starts <==> run.Starts(ops, k));
    all
  }

  /** The tally of a run is of the nodes there were at its last two starts, of what was destroyed since, and ever. */
  ghost predicate Sums<V>(run: Run<V>, starts: seq<nat>, t: Tally<V>) {
    var all :=
      t.start == run.NodesAt(starts, 1) && t.before == run.NodesAt(starts, 2) && From(starts) <= |run.torn| &&
      t.lost == Union(run.torn[From(starts)..]) && t.ever == Union(run.torn);
    all
  }

  /** Each call moves nodes as the tables before it tell. */
  ghost predicate AllMoves<V>(ops: seq<Op<V>>, run: Run<V>) {
    var all := |run.found| <= |ops| && run.Sized(|run.found|) &&
      forall k :: 0 <= k < |run.found| ==> Moves(ops[k], run.found[k], run.trace[k], run.torn[k], run.trace[k + 1]);
    all
  }

  lemma AllMovesMore<V>(ops: seq<Op<V>>, run: Run<V>, f: Option<V>, d: set<HNode<V>>, s: Snap<V>)
    requires AllMoves(ops, run) && |run.found| < |ops| && Moves(ops[|run.found|], f, run.trace[|run.found|], d, s)
    ensures AllMoves(ops, run.More(f, d, s))
  {
    var run', n := run.More(f, d, s), |run.found|;
    forall k | 0 <= k < |run'.found|
      ensures Moves(ops[k], run'.found[k], run'.trace[k], run'.torn[k], run'.trace[k + 1])
    {
      assert k < n ==> Moves(ops[k], run.found[k], run.trace[k], run.torn[k], run.trace[k + 1]);
    }
  }

  /** Answers, moves and destroyed values of the first calls of a run. */
  ghost predicate Log<V>(ops: seq<Op<V>>, run: Run<V>, starts: seq<nat>, t: Tally<V>) {
    var log := Answered(ops, run.found) && AllMoves(ops, run) && AllShown(ops, run) && Listed(ops, run, starts) && Sums(run, starts, t);
    log
  }

  lemma ListedMore<V>(ops: seq<Op<V>>, run: Run<V>, starts: seq<nat>, f: Option<V>, d: set<HNode<V>>, s: Snap<V>, started: bool)
    requires Listed(ops, run, starts) && |run.found| < |ops|
    requires started == (ops[|run.found|].Put? && f == None && Full(Placed(run.trace[|run.found|].x)))
    ensures Listed(ops, run.More(f, d, s), Noted(starts, started, |run.found|))
  {
    var run', n := run.More(f, d, s), |run.found|;
    var starts' := if started then starts + [n] else starts;
    forall k | 0 <= k < |run'.found|
      ensures k in starts' <==> run'.Starts(ops, k)
    {
      assert k < n ==> run'.found[k] == run.found[k] && run'.trace[k] == run.trace[k];
      assert k < n ==> (k in starts <==> run.Starts(ops, k));
    }
  }

  lemma SumsMore<V>(ops: seq<Op<V>>, run: Run<V>, starts: seq<nat>, t: Tally<V>, f: Option<V>, d: set<HNode<V>>, s: Snap<V>,
                    started: bool, t': Tally<V>)
    requires Listed(ops, run, starts) && Sums(run, starts, t) && Torn(t, started, s.All(), d, t')
    ensures Sums(run.More(f, d, s), Noted(starts, started, |run.found|), t')
  {
    UnionsMore(run.torn, From(starts), d);
    NodesMore(run, starts, s, f, d, 1);
    NodesMore(run, starts, s, f, d, 2);
  }

  lemma UnionsMore<V>(torn: seq<set<HNode<V>>>, from: nat, d: set<HNode<V>>)
    requires from <= |torn|
    ensures Union(torn + [d]) == Union(torn) + d && Union((torn + [d])[|torn|..]) == d
    ensures Union((torn + [d])[from..]) == Union(torn[from..]) + d
  {
    UnionMore(torn, from, d);
    UnionMore(torn, |torn|, d);
    assert (torn + [d])[..|torn|] == torn && torn[|torn|..] == [];
  }

  /** Another call leaves the earlier starts where they were, and, if it starts a migration, one further from the end. */
  lemma NodesMore<V>(run: Run<V>, starts: seq<nat>, s: Snap<V>, f: Option<V>, d: set<HNode<V>>, k: nat)
    requires run.Sized(|run.found|) && 1 <= k && forall i :: 0 <= i < |starts| ==> starts[i] < |run.found|
    ensures run.More(f, d, s).NodesAt(starts, k) == run.NodesAt(starts, k)
    ensures run.More(f, d, s).NodesAt(starts + [|run.found|], k) == if k == 1 then s.All() else run.NodesAt(starts, k - 1)
  {
    var trace, starts' := run.trace + [s], starts + [|run.found|];
    assert forall i :: 0 <= i < |run.trace| ==> trace[i] == run.trace[i];
    if 1 < k <= |starts'| {
      assert starts'[|starts'| - k] == starts[|starts| - (k - 1)];
    }
  }

  lemma LogMore<V>(ops: seq<Op<V>>, run: Run<V>, starts: seq<nat>, t: Tally<V>, f: Option<V>, d: set<HNode<V>>, s: Snap<V>,
                   started: bool, t': Tally<V>)
    requires Log(ops, run, starts, t) && |run.found| < |ops| && Torn(t, started, s.All(), d, t')
    requires started == (ops[|run.found|].Put? && f == None && Full(Placed(run.trace[|run.found|].x)))
    requires f == Answer(ApplyAll(ops[..|run.found|]), ops[|run.found|])
    requires Moves(ops[|run.found|], f, run.trace[|run.found|], d, s) && Shown(s, ApplyAll(ops[..|run.found| + 1]))
    ensures Log(ops, run.More(f, d, s), Noted(starts, started, |run.found|), t')
  {
    AnsweredMore(ops, run.found, f);
    AllMovesMore(ops, run, f, d, s);
    AllShownMore(ops, run, f, d, s);
    ListedMore(ops, run, starts, f, d, s, started);
    SumsMore(ops, run, starts, t, f, d, s, started, t');
  }

  /** An empty map. */
  ghost function Nothing<V>(): Snap<V> { Snap({}, {}, Load(0, 0, 0, 0)) }

  /** Where a run stands after i calls. */
  ghost predicate Reached<V>(ops: seq<Op<V>>, i: nat, run: Run<V>, starts: seq<nat>, m: map<Id, Entry<V>>, s: Snap<V>, t: Tally<V>) {
    var all := i <= |ops| && run.Sized(i) && run.trace[0] == Nothing() && run.trace[i] == s &&
      m == ApplyAll(ops[..i]) && Log(ops, run, starts, t);
    all
  }

  lemma ReachedNone<V>(ops: seq<Op<V>>)
    ensures Reached(ops, 0, Run([], [], [Nothing()]), [], map[], Nothing(), Tally({}, {}, {}, {}))
  {
    var none: seq<set<HNode<V>>> := [];
    assert none[0..] == none;
  }

  lemma ReachedMore<V>(ops: seq<Op<V>>, i: nat, run: Run<V>, starts: seq<nat>, m: map<Id, Entry<V>>, s: Snap<V>, t: Tally<V>,
                       f: Option<V>, d: set<HNode<V>>, m': map<Id, Entry<V>>, s': Snap<V>, t': Tally<V>, started: bool)
    requires Reached(ops, i, run, starts, m, s, t) && i < |ops|
    requires Did(ops[i], f, d, m, s, t, m', s', t') && Shown(s', m') && started == (ops[i].Put? && f == None && Full(Placed(s.x)))
    ensures Reached(ops, i + 1, run.More(f, d, s'), Noted(starts, started, i), m', s', t')
  {
    RunStep(ops, i);
    LogMore(ops, run, starts, t, f, d, s', started, t');
  }

  /** The next call of a run. */
  method Advance<V>(h: Dict<V>, ops: seq<Op<V>>, i: nat, ghost run: Run<V>, ghost starts: seq<nat>)
    returns (f: Option<V>, d: set<HNode<V>>, ghost run': Run<V>, ghost starts': seq<nat>)
    requires h.Valid() && i < |ops| && Reached(ops, i, run, starts, Values(h.dict), h.hm.View(), h.tally)
    modifies h, h.hm`migratePos, h.hm.older, h.hm.newer, h.hm.older.tab, h.hm.newer.tab, h.hm.Nodes()`next
    ensures h.Valid() && Reached(ops, i + 1, run', starts', Values(h.dict), h.hm.View(), h.tally)
    ensures run'.found == run.found + [f] && run'.torn == run.torn + [d]
    ensures h.hm.NewArrays() && h.NewNodes()
  {
    ghost var m, s, t := Values(h.dict), h.hm.View(), h.tally;
    f, d := Do(h, ops[i]);
    ghost var started := ops[i].Put? && f == None && Full(Placed(s.x));
    h.Shows();
    ReachedMore(ops, i, run, starts, m, s, t, f, d, Values(h.dict), h.hm.View(), h.tally, started);
    run', starts' := run.More(f, d, h.hm.View()), Noted(starts, started, i);
  }

  /**
   Any run of lookups, deletes and inserts of absent keys answers as a plain map does. Of the nodes in the map at its
   end, those whose values the latest migration has destroyed are the containers that were there when it started and are
   no longer in the older table; those and the containers that were there when the migration before it started are all
   whose values were destroyed in the run.
   */
  method Replay<V>(ops: seq<Op<V>>)
    returns (h: Dict<V>, found: seq<Option<V>>, torn: seq<set<HNode<V>>>, ghost run: Run<V>, ghost starts: seq<nat>)
    ensures h.Valid() && Values(h.dict) == ApplyAll(ops) && found == run.found && torn == run.torn
    ensures run.Sized(|ops|) && run.trace[0] == Nothing() && run.trace[|ops|] == h.hm.View() && Log(ops, run, starts, h.tally)
    ensures Tallied(h.hm.View(), h.tally)
  {
    found, torn, starts := [], [], [];
    h, run := Begin(ops);
    for i := 0 to |ops|
      invariant h.Valid() && found == run.found && torn == run.torn
      invariant Reached(ops, i, run, starts, Values(h.dict), h.hm.View(), h.tally)
      invariant fresh(h) && fresh(h.hm) && fresh(h.hm.older) && fresh(h.hm.newer) && AllNew(h)
    {
      var f, d;
      f, d, run, starts := Advance(h, ops, i, run, starts);
      found, torn := found + [f], torn + [d];
    }
    ReachedAll(ops, run, starts, Values(h.dict), h.hm.View(), h.tally);
  }

  method Begin<V>(ops: seq<Op<V>>) returns (h: Dict<V>, ghost run: Run<V>)
    ensures h.Valid() && run.found == [] && run.torn == []
    ensures Reached(ops, 0, run, [], Values(h.dict), h.hm.View(), h.tally)
    ensures fresh(h) && fresh(h.hm) && fresh(h.hm.older) && fresh(h.hm.newer) && AllNew(h)
  {
    h := new Dict();
    run := Run([], [], [Nothing()]);
    ReachedNone(ops);
  }

  lemma ReachedAll<V>(ops: seq<Op<V>>, run: Run<V>, starts: seq<nat>, m: map<Id, Entry<V>>, s: Snap<V>, t: Tally<V>)
    requires Reached(ops, |ops|, run, starts, m, s, t)
    ensures m == ApplyAll(ops) && run.Sized(|ops|) && run.trace[0] == Nothing() && run.trace[|ops|] == s && Log(ops, run, starts, t)
  {
    assert ops[..|ops|] == ops;
  }

  // What the tables hold and what was put.

  /** The nodes of the tables are the entries of the map, one each, and the sizes are their numbers. */
  ghost predicate Shown<V>(s: Snap<V>, m: map<Id, Entry<V>>) {
    var shown :=
      |s.o| == s.x.os && |s.n| == s.x.ns && s.o !! s.n &&
      (forall n {:trigger n.Ident()} :: n in s.All() ==> n.Ident() in m && m[n.Ident()] == EntryOf(n)) &&
      (forall n, n' {:trigger n.Ident(), n'.Ident()} :: n in s.All() && n' in s.All() && n.Ident() == n'.Ident() ==> n == n') &&
      (forall id {:trigger m[id]} :: id in m ==> exists n :: n in s.All() && n.Ident() == id);
    shown
  }

  lemma ShownIs<V>(s: Snap<V>, dict: map<Id, HNode<V>>)
    requires Refines(s.All(), dict) && |s.o| == s.x.os && |s.n| == s.x.ns && s.o !! s.n
    ensures Shown(s, Values(dict))
  {
    forall id | id in dict
      ensures exists n :: n in s.All() && n.Ident() == id
    {
      assert dict[id].Ident() == id;
    }
  }

  /** At every point of a run the tables hold what the operations so far have put. */
  ghost predicate AllShown<V>(ops: seq<Op<V>>, run: Run<V>) {
    var all := |run.found| <= |ops| && run.Sized(|run.found|) &&
      forall k :: 0 <= k <= |run.found| ==> Shown(run.trace[k], ApplyAll(ops[..k]));
    all
  }

  lemma AllShownMore<V>(ops: seq<Op<V>>, run: Run<V>, f: Option<V>, d: set<HNode<V>>, s: Snap<V>)
    requires AllShown(ops, run) && |run.found| < |ops| && Shown(s, ApplyAll(ops[..|run.found| + 1]))
    ensures AllShown(ops, run.More(f, d, s))
  {
    var run', n := run.More(f, d, s), |run.found|;
    forall k | 0 <= k <= |run'.found|
      ensures Shown(run'.trace[k], ApplyAll(ops[..k]))
    {
      assert k <= n ==> run'.trace[k] == run.trace[k] && Shown(run.trace[k], ApplyAll(ops[..k]));
    }
  }

  /** The first 31 inserts into an empty map stay in a table of 4 slots. */
  lemma {:induction false} FirstTable<V>(ops: seq<Op<V>>, run: Run<V>, i: nat)
    requires AllMoves(ops, run) && run.trace[0] == Nothing() && i <= 31 && i <= |run.found|
    requires forall k :: 0 <= k < i ==> KindOf(ops[k], run.found[k]) == Ins
    ensures run.trace[i].x == Load(0, 0, if i == 0 then 0 else 4, i) && run.trace[i].o == {}
    ensures forall k :: 0 <= k < i ==> run.torn[k] == {}
  {
    if i > 0 {
      FirstTable(ops, run, i - 1);
      assert Moves(ops[i - 1], run.found[i - 1], run.trace[i - 1], run.torn[i - 1], run.trace[i]);
      StillSmall(run.trace[i - 1], run.torn[i - 1], run.trace[i], i);
    }
  }

  lemma StillSmall<V>(s: Snap<V>, d: set<HNode<V>>, s': Snap<V>, i: nat)
    requires 0 < i <= 31 && s.x == Load(0, 0, if i == 1 then 0 else 4, i - 1) && s.o == {} && InsertMoves(s, d, s')
    ensures s'.x == Load(0, 0, 4, i) && s'.o == {} && d == {}
  {
  }

  /**
   The 32nd insert into an empty map, eight for each of the first 4 slots, starts the first migration, moves all nodes to
   a table of 8 slots, and tears down every container among them.
   */
  lemma FirstMigration<V>(ops: seq<Op<V>>, run: Run<V>)
    requires AllMoves(ops, run) && AllShown(ops, run) && run.trace[0] == Nothing() && |run.found| >= 32
    requires forall k :: 0 <= k < 32 ==> KindOf(ops[k], run.found[k]) == Ins
    ensures forall k :: 0 <= k < 31 ==> run.torn[k] == {}
    ensures var s := run.trace[32]; s.x == Load(0, 0, 8, 32) && |s.All()| == 32 && run.torn[31] == Containers(s.All())
  {
    FirstTable(ops, run, 31);
    assert Moves(ops[31], run.found[31], run.trace[31], run.torn[31], run.trace[32]);
    assert Shown(run.trace[32], ApplyAll(ops[..32]));
    AllMove(run.trace[31], run.torn[31], run.trace[32]);
  }

  lemma AllMove<V>(s: Snap<V>, d: set<HNode<V>>, s': Snap<V>)
    requires s.x == Load(0, 0, 4, 31) && InsertMoves(s, d, s') && |s'.o| == s'.x.os && |s'.n| == s'.x.ns
    ensures s'.x == Load(0, 0, 8, 32) && |s'.All()| == 32 && d == Containers(s'.All())
  {
    assert s'.o == {};
    assert s'.All() == s'.n && s'.All() - s'.o == s'.All();
  }

  /** So 32 inserts of ZSET and HSET values, whatever their keys, leave none of those values. */
  lemma FirstMigrationTakesAll<V>(ops: seq<Op<V>>, run: Run<V>)
    requires AllMoves(ops, run) && AllShown(ops, run) && run.trace[0] == Nothing() && |run.found| >= 32
    requires forall k :: 0 <= k < 32 ==> KindOf(ops[k], run.found[k]) == Ins && ops[k].container
    ensures run.torn[31] == run.trace[32].All() && |run.torn[31]| == 32
  {
    FirstMigration(ops, run);
    var s, m := run.trace[32], ApplyAll(ops[..32]);
    assert Shown(s, m);
    AllContainers(ops[..32]);
    assert Containers(s.All()) == s.All() by {
      forall n | n in s.All()
        ensures n.container
      {
        assert m[n.Ident()] == EntryOf(n);
      }
    }
  }

  lemma {:induction false} AllContainers<V>(ops: seq<Op<V>>)
    requires forall k :: 0 <= k < |ops| ==> ops[k].Put? && ops[k].container
    ensures forall id :: id in ApplyAll(ops) ==> ApplyAll(ops)[id].container
  {
    if ops != [] {
      AllContainers(ops[..|ops| - 1]);
    }
  }

  // Migrations over a run.

  ghost function Loads<V>(trace: seq<Snap<V>>): seq<Load> {
    seq(|trace|, i requires 0 <= i < |trace| => trace[i].x)
  }

  ghost function Kinds<V>(ops: seq<Op<V>>, found: seq<Option<V>>): seq<Kind>
    requires |ops| == |found|
  {
    seq(|ops|, i requires 0 <= i < |ops| => KindOf(ops[i], found[i]))
  }

  /** The loads of a run go on as the calls insert and delete. */
  lemma RunLoads<V>(ops: seq<Op<V>>, run: Run<V>)
    requires AllMoves(ops, run) && run.Sized(|ops|)
    ensures LoadRun(Loads(run.trace), Kinds(ops, run.found))
  {
    var tr, kinds := Loads(run.trace), Kinds(ops, run.found);
    forall i | 0 <= i < |kinds|
      ensures LoadStep(tr[i], kinds[i], tr[i + 1])
    {
      assert Moves(ops[i], run.found[i], run.trace[i], run.torn[i], run.trace[i + 1]);
    }
  }

  lemma PartOfRun(tr: seq<Load>, kinds: seq<Kind>, i: nat, j: nat)
    requires LoadRun(tr, kinds) && i <= j <= |kinds|
    ensures LoadRun(tr[i..j + 1], kinds[i..j])
  {
    forall k | 0 <= k < j - i
      ensures LoadStep(tr[i..j + 1][k], kinds[i..j][k], tr[i..j + 1][k + 1])
    {
      assert tr[i..j + 1][k] == tr[i + k] && tr[i..j + 1][k + 1] == tr[i + k + 1];
    }
  }

  /**
   In every run from an empty map the tables keep their pace, and a migration under way before call i has ended by call j
   if the inserts in between pay for the nodes of the older table at 128 each.
   */
  lemma RunMigrationEnds<V>(ops: seq<Op<V>>, run: Run<V>, i: nat, j: nat)
    requires AllMoves(ops, run) && run.Sized(|ops|) && run.trace[0] == Nothing() && i <= j <= |ops|
    requires run.trace[i].x.n > 0
    requires var ins := Inserts(Kinds(ops, run.found)[i..j]); ins > 0 && 128 * ins >= run.trace[i].x.os
    ensures Paced(run.trace[i].x, 0) && exists k :: i <= k <= j && run.trace[k].x.n == 0
  {
    var tr, kinds := Loads(run.trace), Kinds(ops, run.found);
    RunLoads(ops, run);
    PartOfRun(tr, kinds, 0, i);
    PacedRun(tr[0..i + 1], kinds[0..i]);
    PartOfRun(tr, kinds, i, j);
    MigrationEnds(tr[i..j + 1], kinds[i..j]);
    var k :| 0 <= k <= j - i && tr[i..j + 1][k].n == 0;
    assert tr[i..j + 1][k] == tr[i + k] && tr[i + k] == run.trace[i + k].x;
  }

  lemma Absent<V>(ns: set<HNode<V>>, dict: map<Id, HNode<V>>, id: Id)
    requires Refines(ns, dict) && forall n :: n in ns ==> n.Ident() != id
    ensures id !in dict
  {
    assert forall i :: i in dict ==> dict[i] in ns && dict[i].Ident() == i;
  }

  lemma ListIds<V>(ns: seq<HNode<V>>, all: set<HNode<V>>, dict: map<Id, HNode<V>>) returns (ids: seq<Id>)
    requires (forall i, j :: 0 <= i < j < |ns| ==> ns[i] != ns[j]) && (all == set n | n in ns) && Refines(all, dict)
    ensures |ids| == |ns| == |dict|
    ensures forall i :: 0 <= i < |ids| ==> ids[i] in dict && dict[ids[i]] == ns[i]
    ensures forall i, j :: 0 <= i < j < |ids| ==> ids[i] != ids[j]
  {
    ids := seq(|ns|, i requires 0 <= i < |ns| => ns[i].Ident());
    assert forall i :: 0 <= i < |ns| ==> ns[i] in all;
    RefinesSize(all, dict);
    ListSize(ns, all);
  }

  lemma {:induction false} ListSize<T>(s: seq<T>, all: set<T>)
    requires (forall i, j :: 0 <= i < j < |s| ==> s[i] != s[j]) && all == set x | x in s
    ensures |s| == |all|
    decreases s
  {
    if s != [] {
      var n := |s| - 1;
      var t := s[..n];
      assert all - {s[n]} == set x | x in t by {
        assert s == t + [s[n]];
      }
      ListSize(t, all - {s[n]});
    }
  }
}
