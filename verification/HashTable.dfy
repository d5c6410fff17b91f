/** One open-hashing table of hashmap.cpp: a bucket array of singly linked chains. */
module HashTable {
  import opened Bytes

  /** Bitwise and of two natural numbers. */
  function BitAnd(x: nat, y: nat): (r: nat)
    ensures r <= x && r <= y
  {
    if x == 0 || y == 0 then 0 else 2 * BitAnd(x / 2, y / 2) + (x % 2) * (y % 2)
  }

  /** The test h_init asserts: `n` is a power of two. */
  predicate PowerOfTwo(n: nat) {
    n > 0 && BitAnd(n - 1, n) == 0
  }

  /** The capacities the map uses all pass the test. */
  lemma {:induction false} Pow2Passes(e: nat)
    ensures PowerOfTwo(Pow2(e))
  {
    if e > 0 {
      Pow2Passes(e - 1);
      var n := Pow2(e - 1);
      assert (2 * n - 1) / 2 == n - 1 && (2 * n) / 2 == n;
    }
  }

  /** The slot among 2^e that a hash code selects is its remainder. */
  lemma {:induction false} MaskIsRemainder(x: nat, e: nat)
    ensures BitAnd(x, Pow2(e) - 1) == x % Pow2(e)
    decreases e
  {
    if e == 0 {
      MaskNone(x, Pow2(e));
    } else {
      MaskIsRemainder(x / 2, e - 1);
      MaskTwice(x, Pow2(e - 1), Pow2(e));
    }
  }

  lemma MaskNone(x: nat, m: nat)
    requires m == 1
    ensures BitAnd(x, m - 1) == x % m
  {
  }

  lemma MaskTwice(x: nat, p: nat, m: nat)
    requires p > 0 && m == 2 * p && BitAnd(x / 2, p - 1) == x / 2 % p
    ensures BitAnd(x, m - 1) == x % m
  {
    var y := m - 1;
    assert y / 2 == p - 1 && y % 2 == 1;
    HalfRemainder(x, p);
  }

  lemma HalfRemainder(x: nat, p: nat)
    requires p > 0
    ensures x % (2 * p) == 2 * (x / 2 % p) + x % 2
  {
    var q, r := x / 2 / p, x / 2 % p;
    assert x / 2 == p * q + r;
    assert x == (2 * p) * q + (2 * r + x % 2);
    OnlyRemainder(x, 2 * p, q, 2 * r + x % 2);
  }

  lemma OnlyRemainder(x: nat, m: nat, q: nat, r: nat)
    requires r < m && x == m * q + r
    ensures x % m == r
  {
    SameQuotient(m, q, r, x / m, x % m);
  }

  lemma SameQuotient(m: nat, q: nat, r: nat, q': nat, r': nat)
    requires r < m && r' < m && m * q + r == m * q' + r'
    ensures q == q' && r == r'
  {
    if q < q' {
      NextMultiple(m, q, q' - q);
      assert false;
    } else if q' < q {
      NextMultiple(m, q', q - q');
      assert false;
    }
  }

  lemma NextMultiple(m: nat, q: nat, k: nat)
    requires k > 0
    ensures m * q + m <= m * (q + k)
  {
    assert m * (q + k) == m * q + m + m * (k - 1);
  }

  /** The part of a key that strcmp sees: the bytes before the first NUL. */
  function CStr(key: seq<Byte>): (s: seq<Byte>)
    ensures 0 !in s && s <= key
    ensures 0 !in key ==> s == key
    ensures |s| < |key| ==> key[|s|] == 0
  {
    if key == [] || key[0] == 0 then [] else [key[0]] + CStr(key[1..])
  }

  /** What ht_lookup compares: the hash code and the C string of the key. */
  datatype Id = Id(hcode: nat, text: seq<Byte>)

  class HNode<V> {
    const key: seq<Byte>
    const hcode: nat
    const container: bool  // type is T_ZSET or T_HSET
    const owner: V         // the struct this node is embedded in
    var next: HNode?<V>

    constructor (key: seq<Byte>, hcode: nat, container: bool, owner: V)
      ensures this.key == key && this.hcode == hcode && this.container == container && this.owner == owner
      ensures next == null
    {
      this.key, this.hcode, this.container, this.owner := key, hcode, container, owner;
      next := null;
    }

    function Ident(): Id { Id(hcode, CStr(key)) }
  }

  /**
   What the bucket heads and next pointers of a table say, as values. Each node lies in bucket `slot`
   with `depth` nodes after it in the chain; bucket b holds load[b] nodes.
   */
  datatype Layout<!V> = Layout(
    head: seq<HNode?<V>>, next: map<HNode<V>, HNode?<V>>,
    slot: map<HNode<V>, nat>, depth: map<HNode<V>, nat>, load: seq<nat>)

  ghost predicate Shaped<V>(y: Layout<V>) {
    && |y.head| == |y.load| && y.slot.Keys == y.next.Keys && y.depth.Keys == y.next.Keys
    && (forall n {:trigger y.slot[n]} :: n in y.next ==> y.slot[n] < |y.load|)
  }

  ghost predicate NextOk<V>(y: Layout<V>, n: HNode<V>)
    requires Shaped(y) && n in y.next
  {
    var m := y.next[n];
    if y.depth[n] == 0 then m == null
    else m != null && m in y.next && y.slot[m] == y.slot[n] && y.depth[m] == y.depth[n] - 1
  }

  ghost predicate HeadOk<V>(y: Layout<V>, b: nat)
    requires Shaped(y) && b < |y.head|
  {
    var h := y.head[b];
    if y.load[b] == 0 then h == null
    else h != null && h in y.next && y.slot[h] == b && y.depth[h] == y.load[b] - 1
  }

  ghost predicate SamePlace<V>(y: Layout<V>, n: HNode<V>, m: HNode<V>)
    requires Shaped(y) && n in y.next && m in y.next
  {
    y.slot[n] == y.slot[m] && y.depth[n] == y.depth[m]
  }

  ghost predicate Chained<V>(y: Layout<V>) {
    && Shaped(y)
    && (forall n {:trigger y.depth[n]} :: n in y.next ==> y.depth[n] < y.load[y.slot[n]])
    && (forall n {:trigger NextOk(y, n)} :: n in y.next ==> NextOk(y, n))
    && (forall b {:trigger HeadOk(y, b)} :: 0 <= b < |y.head| ==> HeadOk(y, b))
    && (forall n, m {:trigger SamePlace(y, n, m)} :: n in y.next && m in y.next && SamePlace(y, n, m) ==> n == m)
  }

  /** Linking `x` in front of bucket b. */
  ghost function Pushed<V>(y: Layout<V>, x: HNode<V>, b: nat): Layout<V>
    requires |y.head| == |y.load| && b < |y.head|
  {
    Layout(y.head[b := x], y.next[x := y.head[b]],
           y.slot[x := b], y.depth[x := y.load[b]], y.load[b := y.load[b] + 1])
  }

  lemma PushShaped<V>(y: Layout<V>, x: HNode<V>, b: nat)
    requires Shaped(y) && x !in y.next && b < |y.head|
    ensures Shaped(Pushed(y, x, b))
  {
  }

  lemma PushNext<V>(y: Layout<V>, x: HNode<V>, b: nat, n: HNode<V>)
    requires Shaped(y) && x !in y.next && b < |y.head| && Shaped(Pushed(y, x, b))
    requires if n == x then HeadOk(y, b) else n in y.next && NextOk(y, n)
    ensures NextOk(Pushed(y, x, b), n)
  {
  }

  lemma PushHead<V>(y: Layout<V>, x: HNode<V>, b: nat, c: nat)
    requires Shaped(y) && x !in y.next && b < |y.head| && c < |y.head| && Shaped(Pushed(y, x, b))
    requires HeadOk(y, c)
    ensures HeadOk(Pushed(y, x, b), c)
  {
  }

  lemma PushChained<V>(y: Layout<V>, x: HNode<V>, b: nat)
    requires Chained(y) && x !in y.next && b < |y.head|
    ensures Chained(Pushed(y, x, b))
  {
    var z := Pushed(y, x, b);
    PushShaped(y, x, b);
    forall n | n in z.next ensures NextOk(z, n) { PushNext(y, x, b, n); }
    forall c | 0 <= c < |z.head| ensures HeadOk(z, c) { PushHead(y, x, b, c); }
    forall n, m | n in z.next && m in z.next && SamePlace(z, n, m) ensures n == m { PushPlace(y, x, b, n, m); }
  }

  lemma PushPlace<V>(y: Layout<V>, x: HNode<V>, b: nat, n: HNode<V>, m: HNode<V>)
    requires Chained(y) && x !in y.next && b < |y.head| && Shaped(Pushed(y, x, b))
    requires n in Pushed(y, x, b).next && m in Pushed(y, x, b).next && SamePlace(Pushed(y, x, b), n, m)
    ensures n == m
  {
    assert n != x && m != x ==> SamePlace(y, n, m);
  }

  /** `p` is the predecessor of `x` in its chain, null at the front. */
  ghost predicate Precedes<V>(y: Layout<V>, p: HNode?<V>, x: HNode<V>)
    requires Shaped(y) && x in y.next
  {
    if p == null then y.head[y.slot[x]] == x
    else p in y.next && y.next[p] == x && y.slot[p] == y.slot[x] && y.depth[p] == y.depth[x] + 1
  }

  /** Linking `x` out of its chain, through its predecessor or its bucket slot. */
  ghost function Cut<V>(y: Layout<V>, p: HNode?<V>, x: HNode<V>): Layout<V>
    requires Shaped(y) && x in y.next && y.load[y.slot[x]] > 0
  {
    var b, d := y.slot[x], y.depth[x];
    Layout(
      if p == null then y.head[b := y.next[x]] else y.head,
      (if p == null then y.next else y.next[p := y.next[x]]) - {x},
      y.slot - {x},
      map n | n in y.depth && n != x :: if y.slot[n] == b && y.depth[n] > d then y.depth[n] - 1 else y.depth[n],
      y.load[b := y.load[b] - 1])
  }

  lemma CutShaped<V>(y: Layout<V>, p: HNode?<V>, x: HNode<V>)
    requires Shaped(y) && x in y.next && y.load[y.slot[x]] > 0 && Precedes(y, p, x)
    ensures Shaped(Cut(y, p, x)) && Cut(y, p, x).next.Keys == y.next.Keys - {x}
  {
    var z := Cut(y, p, x);
    assert z.depth.Keys == y.depth.Keys - {x};
    assert z.next.Keys == y.next.Keys - {x};
  }

  /** Only `p` points at `x`. */
  lemma OnlyPrev<V>(y: Layout<V>, p: HNode?<V>, x: HNode<V>, n: HNode<V>)
    requires Chained(y) && x in y.next && Precedes(y, p, x) && n in y.next && y.next[n] == x
    ensures n == p
  {
    assert NextOk(y, n) && HeadOk(y, y.slot[x]);
    assert p != null ==> SamePlace(y, n, p);
  }

  lemma CutNext<V>(y: Layout<V>, p: HNode?<V>, x: HNode<V>, n: HNode<V>)
    requires Shaped(y) && x in y.next && y.load[y.slot[x]] > 0 && Precedes(y, p, x) && Shaped(Cut(y, p, x))
    requires n in y.next && n != x && NextOk(y, n) && NextOk(y, x) && (y.next[n] == x ==> n == p)
    requires !SamePlace(y, n, x) && (y.next[n] != null && y.next[n] != x ==> !SamePlace(y, y.next[n], x))
    ensures n in Cut(y, p, x).next && NextOk(Cut(y, p, x), n)
  {
    var z := Cut(y, p, x);
    var m := z.next[n];
    assert m == if n == p then y.next[x] else y.next[n];
  }

  lemma CutHead<V>(y: Layout<V>, p: HNode?<V>, x: HNode<V>, c: nat)
    requires Shaped(y) && x in y.next && Precedes(y, p, x) && y.depth[x] < y.load[y.slot[x]]
    requires Shaped(Cut(y, p, x)) && c < |y.head| && HeadOk(y, c) && NextOk(y, x)
    requires p != null ==> y.depth[p] < y.load[y.slot[x]]
    ensures HeadOk(Cut(y, p, x), c)
  {
  }

  lemma CutChained<V>(y: Layout<V>, p: HNode?<V>, x: HNode<V>)
    requires Chained(y) && x in y.next && Precedes(y, p, x)
    ensures y.load[y.slot[x]] > 0 && Chained(Cut(y, p, x)) && Cut(y, p, x).next.Keys == y.next.Keys - {x}
  {
    CutShaped(y, p, x);
    CutLinks(y, p, x);
    CutHeads(y, p, x);
    CutPlaces(y, p, x);
  }

  lemma CutLinks<V>(y: Layout<V>, p: HNode?<V>, x: HNode<V>)
    requires Chained(y) && x in y.next && Precedes(y, p, x) && Shaped(Cut(y, p, x))
    ensures forall n :: n in Cut(y, p, x).next ==> NextOk(Cut(y, p, x), n)
  {
    var z := Cut(y, p, x);
    assert NextOk(y, x);
    forall n | n in z.next ensures NextOk(z, n) {
      if y.next[n] == x { OnlyPrev(y, p, x, n); }
      assert NextOk(y, n);
      assert !SamePlace(y, n, x);
      assert y.next[n] != null && y.next[n] != x ==> !SamePlace(y, y.next[n], x);
      CutNext(y, p, x, n);
    }
  }

  lemma CutHeads<V>(y: Layout<V>, p: HNode?<V>, x: HNode<V>)
    requires Chained(y) && x in y.next && Precedes(y, p, x) && Shaped(Cut(y, p, x))
    ensures forall c :: 0 <= c < |Cut(y, p, x).head| ==> HeadOk(Cut(y, p, x), c)
  {
    forall c | 0 <= c < |Cut(y, p, x).head| ensures HeadOk(Cut(y, p, x), c) { CutHead(y, p, x, c); }
  }

  lemma CutPlaces<V>(y: Layout<V>, p: HNode?<V>, x: HNode<V>)
    requires Chained(y) && x in y.next && Precedes(y, p, x) && Shaped(Cut(y, p, x))
    ensures var z := Cut(y, p, x);
      && (forall n :: n in z.next ==> z.depth[n] < z.load[z.slot[n]])
      && (forall n, m :: n in z.next && m in z.next && SamePlace(z, n, m) ==> n == m)
  {
    var z := Cut(y, p, x);
    forall n, m | n in z.next && m in z.next && SamePlace(z, n, m) ensures n == m {
      CutPlace(y, p, x, n, m);
    }
    forall n | n in z.next ensures z.depth[n] < z.load[z.slot[n]] {
      CutPlace(y, p, x, n, n);
    }
  }

  lemma CutPlace<V>(y: Layout<V>, p: HNode?<V>, x: HNode<V>, n: HNode<V>, m: HNode<V>)
    requires Chained(y) && x in y.next && Precedes(y, p, x) && Shaped(Cut(y, p, x))
    requires n in y.next && m in y.next && n != x && m != x
    ensures n in Cut(y, p, x).next && m in Cut(y, p, x).next
    ensures var z := Cut(y, p, x); z.depth[n] < z.load[z.slot[n]] && (SamePlace(z, n, m) ==> n == m)
  {
    assert !SamePlace(y, n, x) && !SamePlace(y, m, x);
    assert SamePlace(y, n, m) ==> n == m;
  }

  ghost predicate InSlot<V>(y: Layout<V>, n: HNode<V>, mask: nat)
    requires n in y.slot
  {
    y.slot[n] == BitAnd(n.hcode, mask)
  }

  /** Every node sits in the bucket its hash code selects. */
  ghost predicate Hashed<V>(y: Layout<V>, mask: nat) {
    && y.slot.Keys == y.next.Keys
    && forall n {:trigger InSlot(y, n, mask)} :: n in y.slot ==> InSlot(y, n, mask)
  }

  /** Bucket b of the layout is one chain that holds exactly the nodes of that slot. */
  ghost predicate BucketOk<V>(y: Layout<V>, b: nat)
    requires Shaped(y) && b < |y.head|
  {
    && HeadOk(y, b)
    && (forall n {:trigger NextOk(y, n)} :: n in y.next && y.slot[n] == b ==> NextOk(y, n))
    && (forall n {:trigger y.depth[n]} :: n in y.next && y.slot[n] == b ==> y.depth[n] < y.load[b])
    && (forall n, m {:trigger SamePlace(y, n, m)} ::
          n in y.next && m in y.next && y.slot[n] == b && SamePlace(y, n, m) ==> n == m)
  }

  /** The first k buckets are chains; there are `size` nodes in all. */
  ghost predicate BucketsOk<V>(y: Layout<V>, k: nat, size: nat)
  {
    if k == 0 then Shaped(y) && |y.next.Keys| == size
    else BucketsOk(y, k - 1, size) && Shaped(y) && k <= |y.head| && BucketOk(y, k - 1)
  }

  /** Every bucket is a chain and every node sits in the bucket its hash code selects. */
  ghost predicate Sound<V>(y: Layout<V>, mask: nat, size: nat) {
    var sound := |y.head| == mask + 1 && BucketsOk(y, mask + 1, size) && Hashed(y, mask);
    sound
  }

  lemma {:induction false} BucketsAll<V>(y: Layout<V>, k: nat, size: nat)
    requires BucketsOk(y, k, size)
    ensures Shaped(y) && forall b :: 0 <= b < k ==> b < |y.head| && BucketOk(y, b)
    ensures |y.next.Keys| == size
  {
    if k > 0 { BucketsAll(y, k - 1, size); }
  }

  lemma {:induction false} AllBuckets<V>(y: Layout<V>, k: nat, size: nat)
    requires Chained(y) && k <= |y.head| && |y.next.Keys| == size
    ensures BucketsOk(y, k, size)
  {
    if k > 0 {
      AllBuckets(y, k - 1, size);
      assert HeadOk(y, k - 1);
    }
  }

  lemma SoundChained<V>(y: Layout<V>, mask: nat, size: nat)
    requires Sound(y, mask, size)
    ensures Chained(y) && |y.next.Keys| == size
  {
    BucketsAll(y, mask + 1, size);
    forall n | n in y.next ensures NextOk(y, n) && y.depth[n] < y.load[y.slot[n]] {
      assert BucketOk(y, y.slot[n]);
    }
    forall n, m | n in y.next && m in y.next && SamePlace(y, n, m) ensures n == m {
      assert BucketOk(y, y.slot[n]);
    }
    forall b | 0 <= b < |y.head| ensures HeadOk(y, b) {
      assert BucketOk(y, b);
    }
  }

  lemma SoundShaped<V>(y: Layout<V>, mask: nat, size: nat)
    requires Sound(y, mask, size)
    ensures Shaped(y)
  {
    BucketsAll(y, mask + 1, size);
  }

  /** Empty buckets stay empty. */
  ghost predicate StillEmpty<V>(y: Layout<V>, z: Layout<V>) {
    |z.load| == |y.load| && forall b :: 0 <= b < |y.load| && y.load[b] == 0 ==> z.load[b] == 0
  }

  /** No node of bucket b in front of `node` (none at all, if null) carries `id`. */
  ghost predicate Missed<V>(y: Layout<V>, b: nat, node: HNode?<V>, id: Id)
    requires Shaped(y) && (node != null ==> node in y.next)
  {
    forall n :: n in y.next && y.slot[n] == b && (node == null || y.depth[n] > y.depth[node]) ==> n.Ident() != id
  }

  /** What a chain walk finds at the bucket slot. */
  lemma MissStart<V>(y: Layout<V>, mask: nat, size: nat, b: nat, id: Id)
    requires Sound(y, mask, size) && b <= mask
    ensures Shaped(y) && (y.load[b] == 0 <==> y.head[b] == null)
    ensures y.head[b] != null ==> y.head[b] in y.next && y.slot[y.head[b]] == b && Precedes(y, null, y.head[b])
    ensures Missed(y, b, y.head[b], id)
  {
    SoundChained(y, mask, size);
    assert HeadOk(y, b);
  }

  lemma MissStep<V>(y: Layout<V>, mask: nat, size: nat, b: nat, node: HNode<V>, id: Id)
    requires Sound(y, mask, size) && Shaped(y) && node in y.next && y.slot[node] == b
    requires Missed(y, b, node, id) && node.Ident() != id
    ensures y.next[node] != null ==> y.next[node] in y.next && y.slot[y.next[node]] == b
    ensures y.next[node] != null ==> Precedes(y, node, y.next[node]) && y.depth[y.next[node]] < y.depth[node]
    ensures Missed(y, b, y.next[node], id)
  {
    SoundChained(y, mask, size);
    assert NextOk(y, node);
    forall n | n in y.next && y.slot[n] == b && n != node ensures !SamePlace(y, n, node) {}
  }

  lemma PushHashed<V>(y: Layout<V>, x: HNode<V>, mask: nat)
    requires Hashed(y, mask) && |y.load| == |y.head| == mask + 1
    ensures Hashed(Pushed(y, x, BitAnd(x.hcode, mask)), mask)
  {
    var z := Pushed(y, x, BitAnd(x.hcode, mask));
    forall n | n in z.slot ensures InSlot(z, n, mask) { assert n != x ==> InSlot(y, n, mask); }
  }

  lemma PushCount<V>(y: Layout<V>, x: HNode<V>, b: nat)
    requires x !in y.next && |y.head| == |y.load| && b < |y.head|
    ensures Pushed(y, x, b).next.Keys == y.next.Keys + {x} && |Pushed(y, x, b).next.Keys| == |y.next.Keys| + 1
  {
    assert Pushed(y, x, b).next.Keys == y.next.Keys + {x};
  }

  lemma PushSound<V>(y: Layout<V>, x: HNode<V>, mask: nat, size: nat)
    requires Sound(y, mask, size) && x !in y.next
    ensures |y.load| == |y.head| == mask + 1 && Sound(Pushed(y, x, BitAnd(x.hcode, mask)), mask, size + 1)
  {
    SoundChained(y, mask, size);
    PushHashed(y, x, mask);
    PushBuckets(y, x, BitAnd(x.hcode, mask), size);
  }

  lemma PushBuckets<V>(y: Layout<V>, x: HNode<V>, b: nat, size: nat)
    requires Chained(y) && x !in y.next && b < |y.head| && |y.next.Keys| == size
    ensures BucketsOk(Pushed(y, x, b), |y.head|, size + 1)
  {
    PushCount(y, x, b);
    PushChained(y, x, b);
    AllBuckets(Pushed(y, x, b), |y.head|, size + 1);
  }

  lemma CutSound<V>(y: Layout<V>, p: HNode?<V>, x: HNode<V>, mask: nat, size: nat)
    requires Sound(y, mask, size) && Shaped(y) && x in y.next && Precedes(y, p, x)
    ensures y.load[y.slot[x]] > 0 && size > 0 && Sound(Cut(y, p, x), mask, size - 1) && Cut(y, p, x).next.Keys == y.next.Keys - {x}
  {
    SoundChained(y, mask, size);
    CutChained(y, p, x);
    var z := Cut(y, p, x);
    Fewer(y.next.Keys, z.next.Keys, x);
    AllBuckets(z, mask + 1, size - 1);
    CutHashed(y, p, x, mask);
  }

  lemma Fewer<V>(a: set<HNode<V>>, b: set<HNode<V>>, x: HNode<V>)
    requires x in a && b == a - {x}
    ensures |b| == |a| - 1
  {
  }

  lemma CutHashed<V>(y: Layout<V>, p: HNode?<V>, x: HNode<V>, mask: nat)
    requires Hashed(y, mask) && Shaped(y) && x in y.next && y.load[y.slot[x]] > 0
    requires Cut(y, p, x).next.Keys == y.next.Keys - {x}
    ensures Hashed(Cut(y, p, x), mask)
  {
    var z := Cut(y, p, x);
    forall n | n in z.slot ensures InSlot(z, n, mask) { assert InSlot(y, n, mask); }
  }

  /** What linking `x` in front of bucket b changes in the heads and next pointers. */
  ghost predicate AtFront<V>(y: Layout<V>, z: Layout<V>, x: HNode<V>, b: nat) {
    var front := b < |y.head| && z.head == y.head[b := x] && z.next == y.next[x := y.head[b]] && z.next.Keys == y.next.Keys + {x};
    front
  }

  /** The layout after linking `x` into the bucket its hash code selects. */
  lemma Push<V>(y: Layout<V>, x: HNode<V>, mask: nat, size: nat) returns (z: Layout<V>)
    requires Sound(y, mask, size) && x !in y.next
    ensures Sound(z, mask, size + 1) && AtFront(y, z, x, BitAnd(x.hcode, mask))
  {
    PushSound(y, x, mask, size);
    z := Pushed(y, x, BitAnd(x.hcode, mask));
  }

  /** The layout after taking `x` out of its chain. */
  lemma Drop<V>(y: Layout<V>, p: HNode?<V>, x: HNode<V>, mask: nat, size: nat) returns (z: Layout<V>)
    requires Sound(y, mask, size) && Shaped(y) && x in y.next && Precedes(y, p, x)
    ensures size > 0 && Sound(z, mask, size - 1)
    ensures z.head == if p == null then y.head[BitAnd(x.hcode, mask) := y.next[x]] else y.head
    ensures z.next == (if p == null then y.next else y.next[p := y.next[x]]) - {x}
    ensures z.next.Keys == y.next.Keys - {x}
    ensures p != null ==> p in y.next
    ensures StillEmpty(y, z)
  {
    CutSound(y, p, x, mask, size);
    assert InSlot(y, x, mask);
    z := Cut(y, p, x);
  }

  lemma EmptySound<V>(n: nat) returns (y: Layout<V>)
    requires n > 0
    ensures Sound(y, n - 1, 0) && y.next == map[] && |y.head| == n && forall b :: 0 <= b < n ==> y.head[b] == null
  {
    y := Layout(seq(n, _ => null), map[], map[], map[], seq(n, _ => 0));
    AllBuckets(y, n, 0);
  }

  /** `ns` lists, once each, the nodes of the buckets before b and those of bucket b in front of `cur`. */
  ghost predicate Listed<V>(y: Layout<V>, ns: seq<HNode<V>>, b: nat, cur: HNode?<V>)
    requires Shaped(y) && (cur != null ==> cur in y.next)
  {
    && (forall i, j :: 0 <= i < j < |ns| ==> ns[i] != ns[j])
    && (forall n :: n in ns ==> n in y.next)
    && (forall n :: n in y.next ==>
          (n in ns <==> y.slot[n] < b || (y.slot[n] == b && (cur == null || y.depth[n] > y.depth[cur]))))
  }

  ghost predicate KeysOf<V>(keys: seq<seq<Byte>>, ns: seq<HNode<V>>) {
    var all := |keys| == |ns| && forall i :: 0 <= i < |ns| ==> keys[i] == ns[i].key;
    all
  }

  lemma KeysMore<V>(keys: seq<seq<Byte>>, ns: seq<HNode<V>>, n: HNode<V>)
    requires KeysOf(keys, ns)
    ensures KeysOf(keys + [n.key], ns + [n])
  {
  }

  /** The walk of bucket b starts at its head. */
  lemma ListStart<V>(y: Layout<V>, mask: nat, size: nat, ns: seq<HNode<V>>, b: nat)
    requires Sound(y, mask, size) && Shaped(y) && b <= mask
    requires if b == 0 then ns == [] else Listed(y, ns, b - 1, null)
    ensures y.head[b] != null ==> y.head[b] in y.next && y.slot[y.head[b]] == b
    ensures Listed(y, ns, b, y.head[b])
  {
    SoundChained(y, mask, size);
    assert HeadOk(y, b);
  }

  lemma ListStep<V>(y: Layout<V>, mask: nat, size: nat, ns: seq<HNode<V>>, b: nat, cur: HNode<V>)
    requires Sound(y, mask, size) && Shaped(y) && cur in y.next && y.slot[cur] == b && Listed(y, ns, b, cur)
    ensures y.next[cur] != null ==> y.next[cur] in y.next && y.slot[y.next[cur]] == b && y.depth[y.next[cur]] < y.depth[cur]
    ensures Listed(y, ns + [cur], b, y.next[cur])
  {
    SoundChained(y, mask, size);
    assert NextOk(y, cur);
    forall n | n in y.next && y.slot[n] == b && n != cur ensures !SamePlace(y, n, cur) {}
  }

  class HTab<V> {
    var tab: array?<HNode?<V>>
    var mask: nat
    var size: nat
    ghost var lay: Layout<V>
    ghost var log: nat  // the capacity is 2 to this power

    ghost function Nodes(): set<HNode<V>>
      reads this
    {
      lay.next.Keys
    }

    /** The bucket array and the next pointers are what the layout says. */
    ghost predicate Mirrored()
      reads this, tab, Nodes()
    {
      && tab != null && tab.Length == mask + 1 == |lay.head| && (forall b :: 0 <= b < tab.Length ==> tab[b] == lay.head[b])
      && forall n {:trigger n.next} :: n in lay.next ==> n.next == lay.next[n]
    }

    ghost predicate Valid()
      reads this, tab, Nodes()
    {
      if tab == null then mask == 0 && size == 0 && lay == Layout([], map[], map[], map[], [])
      else
        var mirrored, sound := Mirrored(), Sound(lay, mask, size);
        mirrored && sound && mask + 1 == Pow2(log)
    }

    constructor ()
      ensures Valid() && tab == null && Nodes() == {}
    {
      tab, mask, size, log, lay := null, 0, 0, 0, Layout([], map[], map[], map[], []);
    }

    /** `*htab = HTab{}` */
    method Reset()
      modifies this
      ensures Valid() && tab == null && Nodes() == {} && size == 0
    {
      tab, mask, size, log, lay := null, 0, 0, 0, Layout([], map[], map[], map[], []);
    }

    /** `*htab = *other` */
    method Assign(other: HTab<V>)
      modifies this
      ensures tab == old(other.tab) && mask == old(other.mask) && size == old(other.size)
      ensures log == old(other.log) && lay == old(other.lay)
    {
      tab, mask, size, log, lay := other.tab, other.mask, other.size, other.log, other.lay;
    }

    /** h_init */
    method Init(n: nat, ghost e: nat)
      requires n == Pow2(e)
      modifies this
      ensures Valid() && tab != null && fresh(tab) && mask == n - 1 && log == e && Nodes() == {} && size == 0
    {
      Pow2Passes(e);
      assert PowerOfTwo(n);
      tab := new HNode?<V>[n](_ => null);
      mask, size, log := n - 1, 0, e;
      ghost var y := EmptySound(n);
      lay := y;
    }

    /** The writes of ht_insert. */
    method WriteFront(node: HNode<V>, pos: nat, ghost z: Layout<V>)
      requires Mirrored() && node !in Nodes() && pos <= mask && AtFront(lay, z, node, pos)
      modifies this`size, this`lay, tab, node`next
      ensures Mirrored() && lay == z && size == old(size) + 1
    {
      node.next := tab[pos];
      tab[pos] := node;
      size := size + 1;
      lay := z;
    }

    method LinkFront(node: HNode<V>, pos: nat, ghost z: Layout<V>)
      requires Mirrored() && node !in Nodes() && pos <= mask && AtFront(lay, z, node, pos)
      requires Sound(z, mask, size + 1) && mask + 1 == Pow2(log)
      modifies this`size, this`lay, tab, node`next
      ensures Valid() && lay == z && size == old(size) + 1
    {
      WriteFront(node, pos, z);
    }

    /** ht_insert */
    method Insert(node: HNode<V>)
      requires Valid() && tab != null && node !in Nodes()
      modifies this`size, this`lay, tab, node`next
      ensures Valid() && Nodes() == old(Nodes()) + {node} && size == old(size) + 1
    {
      ghost var z := Push(lay, node, mask, size);
      LinkFront(node, BitAnd(node.hcode, mask), z);
    }

    /**
     ht_lookup. The C++ result is the address of the link that points at the node; here it is the
     node and its predecessor in the chain, null when that link is the bucket slot.
     */
    method Lookup(id: Id) returns (node: HNode?<V>, prev: HNode?<V>)
      requires Valid()
      ensures node == null ==> forall n :: n in Nodes() ==> n.Ident() != id
      ensures node != null ==> node in Nodes() && node.Ident() == id && tab != null && Precedes(lay, prev, node)
    {
      node, prev := null, null;
      if tab == null {
        return;
      }
      var pos := BitAnd(id.hcode, mask);
      node := tab[pos];
      MissStart(lay, mask, size, pos, id);
      while node != null
        invariant node != null ==> node in lay.next && lay.slot[node] == pos && Precedes(lay, prev, node)
        invariant Missed(lay, pos, node, id)
        decreases if node == null then 0 else 1 + lay.depth[node]
      {
        if node.hcode == id.hcode && CStr(node.key) == id.text {
          return;
        }
        MissStep(lay, mask, size, pos, node, id);
        prev, node := node, node.next;
      }
      forall n | n in Nodes() ensures n.Ident() != id {
        assert InSlot(lay, n, mask);
      }
    }

    /** The writes of ht_unlink. */
    method WriteOut(prev: HNode?<V>, node: HNode<V>, pos: nat, ghost z: Layout<V>)
      requires Mirrored() && node in Nodes() && pos <= mask && size > 0 && (prev != null ==> prev in Nodes())
      requires z.head == if prev == null then lay.head[pos := lay.next[node]] else lay.head
      requires z.next == (if prev == null then lay.next else lay.next[prev := lay.next[node]]) - {node}
      modifies this`size, this`lay, tab, Nodes()`next
      ensures Mirrored() && lay == z && size == old(size) - 1
    {
      if prev == null {
        tab[pos] := node.next;
      } else {
        prev.next := node.next;
      }
      size := size - 1;
      lay := z;
    }

    method LinkOut(prev: HNode?<V>, node: HNode<V>, pos: nat, ghost z: Layout<V>)
      requires Mirrored() && node in Nodes() && pos <= mask && size > 0 && (prev != null ==> prev in Nodes())
      requires Sound(z, mask, size - 1) && mask + 1 == Pow2(log)
      requires z.head == if prev == null then lay.head[pos := lay.next[node]] else lay.head
      requires z.next == (if prev == null then lay.next else lay.next[prev := lay.next[node]]) - {node}
      modifies this`size, this`lay, tab, Nodes()`next
      ensures Valid() && lay == z && size == old(size) - 1
    {
      WriteOut(prev, node, pos, z);
    }

    /** ht_unlink: takes the node out of its chain; `destroyed` says that it also tore down a ZSET or HSET value. */
    method Unlink(prev: HNode?<V>, node: HNode<V>) returns (destroyed: bool)
      requires Valid() && tab != null && node in Nodes() && Precedes(lay, prev, node)
      modifies this`size, this`lay, tab, Nodes()`next
      ensures Valid() && Nodes() == old(Nodes()) - {node} && size == old(size) - 1
      ensures StillEmpty(old(lay), lay)
      ensures destroyed == node.container
    {
      ghost var z := Drop(lay, prev, node, mask, size);
      LinkOut(prev, node, BitAnd(node.hcode, mask), z);
      destroyed := node.container;
    }

    /** h_foreach: pushes the key of every node, bucket by bucket. */
    method ForEach() returns (keys: seq<seq<Byte>>, ghost ns: seq<HNode<V>>)
      requires Valid()
      ensures KeysOf(keys, ns)
      ensures forall i, j :: 0 <= i < j < |ns| ==> ns[i] != ns[j]
      ensures Nodes() == set n | n in ns
    {
      keys, ns := [], [];
      if tab != null {
        SoundShaped(lay, mask, size);
      }
      var i := 0;
      while i <= mask
        invariant i <= mask + 1
        invariant KeysOf(keys, ns)
        invariant tab == null ==> ns == []
        invariant tab != null ==> if i == 0 then ns == [] else Listed(lay, ns, i - 1, null)
      {
        if tab != null {
          keys, ns := Walk(i, keys, ns);
        }
        i := i + 1;
      }
    }

    /** The inner loop of h_foreach. */
    method Walk(i: nat, keys0: seq<seq<Byte>>, ghost ns0: seq<HNode<V>>) returns (keys: seq<seq<Byte>>, ghost ns: seq<HNode<V>>)
      requires Valid() && tab != null && i <= mask && Shaped(lay)
      requires KeysOf(keys0, ns0)
      requires if i == 0 then ns0 == [] else Listed(lay, ns0, i - 1, null)
      ensures KeysOf(keys, ns)
      ensures Listed(lay, ns, i, null)
    {
      keys, ns := keys0, ns0;
      ListStart(lay, mask, size, ns, i);
      var curr := tab[i];
      while curr != null
        invariant curr != null ==> curr in lay.next && lay.slot[curr] == i
        invariant KeysOf(keys, ns)
        invariant Listed(lay, ns, i, curr)
        decreases if curr == null then 0 else 1 + lay.depth[curr]
      {
        ListStep(lay, mask, size, ns, i, curr);
        KeysMore(keys, ns, curr);
        keys, ns := keys + [curr.key], ns + [curr];
        curr := curr.next;
      }
    }
  }
}
