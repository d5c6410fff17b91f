/** The sorted set of zset.cpp: an AVL tree and a hash map over the same members. */
module ZSet {
  import opened Bytes
  import opened AvlShape
  import opened AvlTree
  import opened ZOrder
  import opened ZTree
  import opened HashTable
  import opened HashMap

  type ZHNode = HNode<AvlNode>
  type Hash = seq<Byte> -> nat

  /** What the hash map takes a member's key for. */
  function IdOf(hash: Hash, key: seq<Byte>): Id {
    Id(hash(key), CStr(key))
  }

  /** On keys without NUL bytes, identity is equality of keys. */
  lemma IdInjective(hash: Hash, a: seq<Byte>, b: seq<Byte>)
    requires 0 !in a && 0 !in b
    ensures IdOf(hash, a) == IdOf(hash, b) <==> a == b
  {
  }

  /** The tree nodes and the hash nodes are the two halves of the same members, one per identity. */
  ghost predicate Tied(hash: Hash, tn: set<AvlNode>, hn: set<ZHNode>, dict: map<Id, ZHNode>) {
    var tied :=  // a variable keeps contracts from being proved conjunct by conjunct
      && (forall id {:trigger dict[id]} :: id in dict ==>
            dict[id] in hn && dict[id].Ident() == id && dict[id].owner in tn && IdOf(hash, dict[id].owner.key) == id)
      && (forall h {:trigger h.Ident()} :: h in hn ==> h.Ident() in dict && dict[h.Ident()] == h)
      && (forall n {:trigger IdOf(hash, n.key)} :: n in tn ==>
            IdOf(hash, n.key) in dict && dict[IdOf(hash, n.key)].owner == n);
    tied
  }

  lemma TiedInsert(hash: Hash, tn: set<AvlNode>, hn: set<ZHNode>, dict: map<Id, ZHNode>, n: AvlNode, h: ZHNode)
    requires Tied(hash, tn, hn, dict) && n !in tn && h !in hn
    requires h.owner == n && h.key == n.key && h.hcode == hash(n.key) && IdOf(hash, n.key) !in dict
    ensures Tied(hash, tn + {n}, hn + {h}, dict[IdOf(hash, n.key) := h])
    ensures forall m :: m in tn ==> m.score != n.score || m.key != n.key
  {
    assert h.Ident() == IdOf(hash, n.key);
  }

  lemma TiedDelete(hash: Hash, tn: set<AvlNode>, hn: set<ZHNode>, dict: map<Id, ZHNode>, id: Id)
    requires Tied(hash, tn, hn, dict) && id in dict
    ensures Tied(hash, tn - {dict[id].owner}, hn - {dict[id]}, dict - {id})
  {
    var h := dict[id];
    forall i | i in dict - {id} ensures (dict - {id})[i] in hn - {h} && dict[i].owner in tn - {h.owner} {
      assert dict[i].Ident() == i && h.Ident() == id;
    }
  }

  ghost function MembersOf(d: map<Id, ZHNode>): map<Id, (real, seq<Byte>)> {
    map id | id in d :: (d[id].owner.score, d[id].owner.key)
  }

  lemma MembersAdd(d: map<Id, ZHNode>, id: Id, h: ZHNode)
    ensures MembersOf(d[id := h]) == MembersOf(d)[id := (h.owner.score, h.owner.key)]
  {
  }

  /** The nodes are the members: each is one with its score and key, every member is there, and no identity comes twice. */
  ghost predicate Lists(hash: Hash, s: seq<AvlNode>, m: map<Id, (real, seq<Byte>)>) {
    var all :=
      && (forall i :: 0 <= i < |s| ==> IdOf(hash, s[i].key) in m && m[IdOf(hash, s[i].key)] == (s[i].score, s[i].key))
      && (forall id :: id in m ==> exists i :: 0 <= i < |s| && IdOf(hash, s[i].key) == id)
      && (forall i, j :: 0 <= i < j < |s| ==> IdOf(hash, s[i].key) != IdOf(hash, s[j].key));
    all
  }

  lemma TiedNode(hash: Hash, tn: set<AvlNode>, hn: set<ZHNode>, dict: map<Id, ZHNode>, n: AvlNode)
    requires Tied(hash, tn, hn, dict) && n in tn
    ensures IdOf(hash, n.key) in dict && dict[IdOf(hash, n.key)].owner == n
  {
  }

  lemma TiedId(hash: Hash, tn: set<AvlNode>, hn: set<ZHNode>, dict: map<Id, ZHNode>, id: Id)
    requires Tied(hash, tn, hn, dict) && id in dict
    ensures dict[id].owner in tn && IdOf(hash, dict[id].owner.key) == id
  {
  }

  lemma {:induction false} InOrderTied(hash: Hash, t: Tree, hn: set<ZHNode>, dict: map<Id, ZHNode>)
    requires Distinct(t) && Tied(hash, Nodes(t), hn, dict)
    ensures Lists(hash, InOrder(t), MembersOf(dict))
  {
    var s := InOrder(t);
    InOrderNodes(t);
    InOrderNoDup(t);
    forall i | 0 <= i < |s|
      ensures IdOf(hash, s[i].key) in dict && dict[IdOf(hash, s[i].key)].owner == s[i]
    {
      assert s[i] in s;
      TiedNode(hash, Nodes(t), hn, dict, s[i]);
    }
    forall id | id in dict
      ensures exists i :: 0 <= i < |s| && IdOf(hash, s[i].key) == id
    {
      TiedId(hash, Nodes(t), hn, dict, id);
      assert dict[id].owner in s;
    }
  }

  lemma MembersDrop(d: map<Id, ZHNode>, id: Id)
    ensures MembersOf(d - {id}) == MembersOf(d) - {id}
  {
  }

  lemma DropThenSet<K, V>(m: map<K, V>, k: K, v: V)
    ensures (m - {k})[k := v] == m[k := v] && (k !in m ==> m - {k} == m)
  {
  }

  class ZSet {
    const hash: Hash
    const hmap: HMap<AvlNode>
    var root: AvlNode?
    ghost var tree: Tree
    ghost var dict: map<Id, ZHNode>

    ghost predicate Valid()
      reads this, Nodes(tree), hmap, hmap.older, hmap.newer, hmap.older.tab, hmap.newer.tab
      reads hmap.older.Nodes(), hmap.newer.Nodes()
    {
      var treeOk, mapOk, tied := SortedAvl(root, tree), hmap.Valid(), Tied(hash, Nodes(tree), hmap.Nodes(), dict);
      treeOk && mapOk && tied
    }

    /** Each member's score and key. */
    ghost function Members(): map<Id, (real, seq<Byte>)>
      reads this
    {
      MembersOf(dict)
    }

    constructor (hash: Hash)
      ensures Valid() && dict == map[] && this.hash == hash && tree == Leaf && hmap.Nodes() == {}
      ensures fresh(hmap) && fresh(hmap.older) && fresh(hmap.newer) && hmap.older.tab == null && hmap.newer.tab == null
    {
      this.hash := hash;
      hmap := new HMap();
      root, tree, dict := null, Leaf, map[];
    }

    /** zset_lookup */
    method Lookup(key: seq<Byte>) returns (node: AvlNode?)
      requires Valid()
      ensures Valid() && (node == null <==> IdOf(hash, key) !in dict)
      ensures node != null ==> node in Nodes(tree) && node == dict[IdOf(hash, key)].owner && IdOf(hash, node.key) == IdOf(hash, key)
    {
      if root == null {
        assert Nodes(tree) == {};
        return null;
      }
      assert allocated(Nodes(tree)) && allocated(hmap.older.Nodes()) && allocated(hmap.newer.Nodes());
      var hnode := hmap.Lookup(IdOf(hash, key));
      node := if hnode == null then null else hnode.owner;
    }

    /** zset_delete */
    method Delete(node: AvlNode)
      requires Valid() && node in Nodes(tree)
      modifies this, Nodes(tree), hmap.older, hmap.newer, hmap.older.tab, hmap.newer.tab, hmap.Nodes()`next
      ensures Valid() && dict == old(dict) - {IdOf(hash, node.key)} && Nodes(tree) == old(Nodes(tree)) - {node}
      ensures hmap.Nodes() <= old(hmap.Nodes()) && SameArrays()
    {
      var r;
      ghost var t, d;
      r, t, d := DeleteBoth(node, hash, hmap, root, tree, dict);
      Store(r, t, d);
    }

    /** Every node in use was in use before or is newly allocated. */
    twostate predicate NewNodes()
      reads this, hmap, hmap.older, hmap.newer
    {
      var all :=
        && (forall n :: n in Nodes(tree) ==> n in old(Nodes(tree)) || fresh(n))
        && (forall h :: h in hmap.Nodes() ==> h in old(hmap.Nodes()) || fresh(h));
      all
    }

    twostate lemma OneNewMember(new leaf: AvlNode, new h: ZHNode)
      requires fresh(leaf) && fresh(h)
      requires Nodes(tree) == old(Nodes(tree)) + {leaf} && hmap.Nodes() == old(hmap.Nodes()) + {h}
      ensures NewNodes()
    {
    }

    twostate predicate SameArrays()
      reads hmap.older, hmap.newer
    {
      hmap.older.tab == old(hmap.older.tab) && hmap.newer.tab == old(hmap.newer.tab)
    }

    /** zset_insert when the key is absent: a new member in both structures. */
    method Add(score: real, key: seq<Byte>)
      requires Valid() && IdOf(hash, key) !in dict
      modifies this, Nodes(tree), hmap`migratePos, hmap.older, hmap.newer, hmap.older.tab, hmap.newer.tab, hmap.Nodes()`next
      ensures Valid() && Members() == old(Members())[IdOf(hash, key) := (score, key)] && hmap.NewArrays() && NewNodes()
    {
      var leaf, h := NewMember(score, key, hash, hmap, root, tree);
      var r;
      ghost var t, d;
      r, t, d := AddBoth(leaf, h, hash, hmap, root, tree, dict);
      MembersAdd(dict, IdOf(hash, key), h);
      Store(r, t, d);
      OneNewMember(leaf, h);
    }

    /** zset_insert: an existing member is looked up and deleted first. True if the key was not a member. */
    method Insert(score: real, key: seq<Byte>) returns (isInsert: bool)
      requires Valid()
      modifies this, Nodes(tree), hmap`migratePos, hmap.older, hmap.newer, hmap.older.tab, hmap.newer.tab, hmap.Nodes()`next
      ensures Valid() && Members() == old(Members())[IdOf(hash, key) := (score, key)]
      ensures isInsert == (IdOf(hash, key) !in old(Members()))
      ensures hmap.NewArrays() && NewNodes()
    {
      DropThenSet(Members(), IdOf(hash, key), (score, key));
      var removed := Remove(key);
      isInsert := !removed;
      Add(score, key);
    }

    /** ZREM: looks the key up and deletes the member. */
    method Remove(key: seq<Byte>) returns (removed: bool)
      requires Valid()
      modifies this, Nodes(tree), hmap.older, hmap.newer, hmap.older.tab, hmap.newer.tab, hmap.Nodes()`next
      ensures Valid() && Members() == old(Members()) - {IdOf(hash, key)}
      ensures removed == (IdOf(hash, key) in old(Members()))
      ensures SameArrays() && Nodes(tree) <= old(Nodes(tree)) && hmap.Nodes() <= old(hmap.Nodes())
    {
      DropThenSet(Members(), IdOf(hash, key), (0.0, key));
      MembersDrop(dict, IdOf(hash, key));
      var node := Lookup(key);
      removed := node != null;
      if node != null {
        Delete(node);
      }
    }

    /** ZSCORE: the score last set for the key. */
    method Score(key: seq<Byte>) returns (found: bool, score: real)
      requires Valid()
      ensures found == (IdOf(hash, key) in Members())
      ensures found ==> score == Members()[IdOf(hash, key)].0
    {
      var node := Lookup(key);
      found, score := node != null, if node == null then 0.0 else node.score;
    }

    /** The tree, read in order, lists every member exactly once, strictly sorted by (score, key). */
    lemma InOrderIsMembers()
      requires Valid()
      ensures Rising(InOrder(tree)) && Lists(hash, InOrder(tree), Members())
    {
      SortedRises(InOrder(tree));
      InOrderTied(hash, tree, hmap.Nodes(), dict);
    }

    method Do(op: ZOp)
      requires Valid()
      modifies this, Nodes(tree), hmap`migratePos, hmap.older, hmap.newer, hmap.older.tab, hmap.newer.tab, hmap.Nodes()`next
      ensures Valid() && Members() == Apply(hash, old(Members()), op) && hmap.NewArrays() && NewNodes()
    {
      match op
      case ZAdd(score, key) => var isInsert := Insert(score, key);
      case ZRem(key) => var removed := Remove(key);
    }

    method Store(r: AvlNode?, ghost t: Tree, ghost d: map<Id, ZHNode>)
      requires SortedAvl(r, t) && hmap.Valid() && Tied(hash, Nodes(t), hmap.Nodes(), d)
      modifies this
      ensures Valid() && root == r && tree == t && dict == d
    {
      root, tree, dict := r, t, d;
    }
  }

  method DeleteBoth(node: AvlNode, hash: Hash, hmap: HMap<AvlNode>, ghost root0: AvlNode?, ghost t0: Tree, ghost d0: map<Id, ZHNode>)
    returns (root: AvlNode?, ghost t: Tree, ghost d: map<Id, ZHNode>)
    requires SortedAvl(root0, t0) && hmap.Valid() && Tied(hash, Nodes(t0), hmap.Nodes(), d0) && node in Nodes(t0)
    modifies Nodes(t0), hmap.older, hmap.newer, hmap.older.tab, hmap.newer.tab, hmap.Nodes()`next
    ensures SortedAvl(root, t) && hmap.Valid() && Tied(hash, Nodes(t), hmap.Nodes(), d)
    ensures d == d0 - {IdOf(hash, node.key)} && Nodes(t) == Nodes(t0) - {node}
    ensures hmap.Nodes() <= old(hmap.Nodes())
    ensures hmap.older.tab == old(hmap.older.tab) && hmap.newer.tab == old(hmap.newer.tab)
  {
    var id := IdOf(hash, node.key);
    TiedDelete(hash, Nodes(t0), hmap.Nodes(), d0, id);
    d := d0 - {id};
    root, t := TreeHalf(node, root0, t0, hmap);
    ghost var gone := MapHalf(hmap, id, root, t);
    assert gone == d0[id];
  }

  /** The tree half of a deletion leaves the hash map alone. */
  method TreeHalf(node: AvlNode, ghost root0: AvlNode?, ghost t0: Tree, ghost hmap: HMap<AvlNode>)
    returns (root: AvlNode?, ghost t: Tree)
    requires SortedAvl(root0, t0) && node in Nodes(t0) && hmap.Valid()
    modifies Nodes(t0)
    ensures SortedAvl(root, t) && Nodes(t) == Nodes(t0) - {node}
    ensures hmap.Valid() && hmap.View() == old(hmap.View())
  {
    ghost var k;
    assert allocated(hmap.older.Nodes()) && allocated(hmap.newer.Nodes());
    root, t, k := TreeDelete(node, root0, t0);
  }

  /** The map half of a deletion leaves the tree alone. */
  method MapHalf(hmap: HMap<AvlNode>, id: Id, ghost root: AvlNode?, ghost t: Tree) returns (ghost gone: HNode?<AvlNode>)
    requires SortedAvl(root, t) && hmap.Valid()
    modifies hmap.older`size, hmap.older`lay, hmap.newer`size, hmap.newer`lay, hmap.older.tab, hmap.newer.tab, hmap.Nodes()`next
    ensures SortedAvl(root, t) && hmap.Valid()
    ensures gone != null ==> gone in old(hmap.Nodes()) && gone.Ident() == id && hmap.Nodes() == old(hmap.Nodes()) - {gone}
    ensures gone == null ==> (forall n :: n in hmap.Nodes() ==> n.Ident() != id) && hmap.Nodes() == old(hmap.Nodes())
  {
    assert allocated(Nodes(t));
    var deleted, destroyed;
    deleted, destroyed, gone := hmap.Delete(id);
  }

  /** hm_insert of a member's hash node leaves the tree alone. */
  method MapAdd(hmap: HMap<AvlNode>, h: ZHNode, ghost root: AvlNode?, ghost t: Tree)
    requires SortedAvl(root, t) && hmap.Valid() && h !in hmap.Nodes()
    modifies hmap`migratePos, hmap.older, hmap.newer, hmap.older.tab, hmap.newer.tab, hmap.Nodes()`next, h`next
    ensures SortedAvl(root, t) && hmap.Valid() && hmap.Nodes() == old(hmap.Nodes()) + {h} && hmap.NewArrays()
  {
    assert allocated(Nodes(t));
    MapInsert(hmap, h);
  }

  /** hm_insert, without its account of what migrates. */
  method MapInsert(hmap: HMap<AvlNode>, h: ZHNode)
    requires hmap.Valid() && h !in hmap.Nodes()
    modifies hmap`migratePos, hmap.older, hmap.newer, hmap.older.tab, hmap.newer.tab, hmap.Nodes()`next, h`next
    ensures hmap.Valid() && hmap.Nodes() == old(hmap.Nodes()) + {h} && hmap.NewArrays()
  {
    ghost var moved;
    var destroyed;
    destroyed, moved := hmap.Insert(h);
  }

  /** The descent and repair of zset_insert leave the hash map alone. */
  method TreeAdd(root0: AvlNode?, leaf: AvlNode, ghost t0: Tree, ghost hmap: HMap<AvlNode>) returns (root: AvlNode?, ghost t: Tree)
    requires SortedAvl(root0, t0) && hmap.Valid() && leaf !in Nodes(t0) && leaf.left == null && leaf.right == null
    requires forall n :: n in Nodes(t0) ==> n.score != leaf.score || n.key != leaf.key
    modifies Nodes(t0) + {leaf}
    ensures SortedAvl(root, t) && Nodes(t) == Nodes(t0) + {leaf}
    ensures hmap.Valid() && hmap.View() == old(hmap.View())
  {
    assert allocated(hmap.older.Nodes()) && allocated(hmap.newer.Nodes());
    root, t := TreeInsert(root0, leaf, t0);
  }

  /** new_znode */
  method NewMember(score: real, key: seq<Byte>, hash: Hash, ghost hmap: HMap<AvlNode>, ghost root: AvlNode?, ghost t: Tree)
    returns (leaf: AvlNode, h: ZHNode)
    requires SortedAvl(root, t) && hmap.Valid()
    ensures SortedAvl(root, t) && hmap.Valid() && hmap.View() == old(hmap.View())
    ensures fresh(leaf) && fresh(h) && leaf !in Nodes(t) && h !in hmap.Nodes()
    ensures leaf.score == score && leaf.key == key && leaf.left == null && leaf.right == null
    ensures h.owner == leaf && h.key == key && h.hcode == hash(key)
  {
    assert allocated(Nodes(t)) && allocated(hmap.older.Nodes()) && allocated(hmap.newer.Nodes());
    leaf := new AvlNode(score, key);
    h := new HNode(key, hash(key), false, leaf);
  }

  method AddBoth(leaf: AvlNode, h: ZHNode, hash: Hash, hmap: HMap<AvlNode>, root0: AvlNode?, ghost t0: Tree, ghost d0: map<Id, ZHNode>)
    returns (root: AvlNode?, ghost t: Tree, ghost d: map<Id, ZHNode>)
    requires SortedAvl(root0, t0) && hmap.Valid() && Tied(hash, Nodes(t0), hmap.Nodes(), d0) && IdOf(hash, leaf.key) !in d0
    requires leaf !in Nodes(t0) && leaf.left == null && leaf.right == null && h !in hmap.Nodes()
    requires h.owner == leaf && h.key == leaf.key && h.hcode == hash(leaf.key)
    modifies Nodes(t0), leaf, hmap`migratePos, hmap.older, hmap.newer, hmap.older.tab, hmap.newer.tab, hmap.Nodes()`next, h`next
    ensures SortedAvl(root, t) && hmap.Valid() && Tied(hash, Nodes(t), hmap.Nodes(), d) && hmap.NewArrays()
    ensures d == d0[IdOf(hash, leaf.key) := h] && Nodes(t) == Nodes(t0) + {leaf} && hmap.Nodes() == old(hmap.Nodes()) + {h}
  {
    TiedInsert(hash, Nodes(t0), hmap.Nodes(), d0, leaf, h);
    d := d0[IdOf(hash, leaf.key) := h];
    MapAdd(hmap, h, root0, t0);
    root, t := TreeAdd(root0, leaf, t0, hmap);
  }

  datatype ZOp = ZAdd(score: real, key: seq<Byte>) | ZRem(key: seq<Byte>)

  /** What a run of operations means, on a plain map. */
  ghost function Apply(hash: Hash, m: map<Id, (real, seq<Byte>)>, op: ZOp): map<Id, (real, seq<Byte>)> {
    match op
    case ZAdd(score, key) => m[IdOf(hash, key) := (score, key)]
    case ZRem(key) => m - {IdOf(hash, key)}
  }

  ghost function ApplyAll(hash: Hash, ops: seq<ZOp>): map<Id, (real, seq<Byte>)> {
    if ops == [] then map[] else Apply(hash, ApplyAll(hash, ops[..|ops| - 1]), ops[|ops| - 1])
  }

  /** Any run of inserts, score updates and deletes refines the plain map. */
  method Replay(hash: Hash, ops: seq<ZOp>) returns (z: ZSet)
    ensures z.Valid() && z.hash == hash && z.Members() == ApplyAll(hash, ops)
  {
    z := new ZSet(hash);
    for i := 0 to |ops|
      invariant z.Valid() && z.hash == hash && z.Members() == ApplyAll(hash, ops[..i])
      invariant fresh(z) && fresh(z.hmap) && fresh(z.hmap.older) && fresh(z.hmap.newer)
      invariant (z.hmap.older.tab != null ==> fresh(z.hmap.older.tab)) && (z.hmap.newer.tab != null ==> fresh(z.hmap.newer.tab))
      invariant (forall n :: n in Nodes(z.tree) ==> fresh(n)) && (forall h :: h in z.hmap.Nodes() ==> fresh(h))
    {
      ApplyStep(hash, ops, i);
      z.Do(ops[i]);
    }
    assert ops[..|ops|] == ops;
  }

  lemma ApplyStep(hash: Hash, ops: seq<ZOp>, i: nat)
    requires i < |ops|
    ensures ApplyAll(hash, ops[..i + 1]) == Apply(hash, ApplyAll(hash, ops[..i]), ops[i])
  {
    assert ops[..i + 1][..i] == ops[..i];
  }
}
