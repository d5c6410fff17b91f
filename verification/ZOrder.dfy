/** The order of a sorted set: by score, then by key bytes as memcmp and length decide. */
module ZOrder {
  import opened Bytes
  import opened AvlShape

  function MemCmp(a: seq<Byte>, b: seq<Byte>, n: nat): int
    requires n <= |a| && n <= |b|
  {
    if n == 0 then 0
    else if a[0] != b[0] then a[0] - b[0]
    else MemCmp(a[1..], b[1..], n - 1)
  }

  /** zless on a node's score and key against a (score, key) pair. */
  predicate ZLess(nodeScore: real, nodeKey: seq<Byte>, score: real, key: seq<Byte>) {
    if score != nodeScore then nodeScore < score
    else
      var ret := MemCmp(nodeKey, key, if |key| < |nodeKey| then |key| else |nodeKey|);
      if ret != 0 then ret < 0 else |nodeKey| < |key|
  }

  /** The dictionary order, stated without memcmp. */
  ghost predicate Lex(a: seq<Byte>, b: seq<Byte>) {
    b != [] && (a == [] || a[0] < b[0] || (a[0] == b[0] && Lex(a[1..], b[1..])))
  }

  lemma {:induction false} MemCmpIsLex(a: seq<Byte>, b: seq<Byte>)
    ensures var n := if |b| < |a| then |b| else |a|;
      Lex(a, b) <==> (MemCmp(a, b, n) < 0 || (MemCmp(a, b, n) == 0 && |a| < |b|))
  {
    if a != [] && b != [] && a[0] == b[0] {
      MemCmpIsLex(a[1..], b[1..]);
    }
  }

  lemma {:induction false} LexTransitive(a: seq<Byte>, b: seq<Byte>, c: seq<Byte>)
    requires Lex(a, b) && Lex(b, c)
    ensures Lex(a, c)
  {
    if a != [] && a[0] == b[0] && b[0] == c[0] {
      LexTransitive(a[1..], b[1..], c[1..]);
    }
  }

  lemma {:induction false} LexTotal(a: seq<Byte>, b: seq<Byte>)
    ensures Lex(a, b) || a == b || Lex(b, a)
    ensures !(Lex(a, b) && Lex(b, a)) && (Lex(a, b) ==> a != b)
  {
    if a != [] && b != [] && a[0] == b[0] {
      LexTotal(a[1..], b[1..]);
      assert a == [a[0]] + a[1..] && b == [b[0]] + b[1..];
    }
  }

  /** Dictionary order: after a common beginning `a` ends, or has the smaller byte. */
  lemma {:induction false} LexIs(a: seq<Byte>, b: seq<Byte>)
    ensures Lex(a, b) <==>
      exists k :: 0 <= k <= |a| && k < |b| && a[..k] == b[..k] && (k == |a| || a[k] < b[k])
  {
    if Lex(a, b) {
      var k := FirstDifference(a, b);
    }
    if k :| 0 <= k <= |a| && k < |b| && a[..k] == b[..k] && (k == |a| || a[k] < b[k]) {
      DifferenceDecides(a, b, k);
    }
  }

  lemma {:induction false} FirstDifference(a: seq<Byte>, b: seq<Byte>) returns (k: nat)
    requires Lex(a, b)
    ensures k <= |a| && k < |b| && a[..k] == b[..k] && (k == |a| || a[k] < b[k])
  {
    k := 0;
    if a != [] && a[0] == b[0] {
      var j := FirstDifference(a[1..], b[1..]);
      k := j + 1;
      assert a[..k] == [a[0]] + a[1..][..j] && b[..k] == [b[0]] + b[1..][..j];
    }
  }

  lemma {:induction false} DifferenceDecides(a: seq<Byte>, b: seq<Byte>, k: nat)
    requires k <= |a| && k < |b| && a[..k] == b[..k] && (k == |a| || a[k] < b[k])
    ensures Lex(a, b)
  {
    if k > 0 {
      assert a[0] == a[..k][0] == b[..k][0] == b[0];
      assert a[1..][..k - 1] == a[..k][1..] && b[1..][..k - 1] == b[..k][1..];
      DifferenceDecides(a[1..], b[1..], k - 1);
    }
  }

  /** By rising score, and by key in dictionary order where the scores are equal. */
  lemma ZLessIs(s: real, a: seq<Byte>, t: real, b: seq<Byte>)
    ensures ZLess(s, a, t, b) <==> s < t || (s == t && Lex(a, b))
  {
    MemCmpIsLex(a, b);
  }

  lemma ZLessTransitive(s: real, a: seq<Byte>, t: real, b: seq<Byte>, u: real, c: seq<Byte>)
    requires ZLess(s, a, t, b) && ZLess(t, b, u, c)
    ensures ZLess(s, a, u, c)
  {
    MemCmpIsLex(a, b);
    MemCmpIsLex(b, c);
    MemCmpIsLex(a, c);
    if s == t == u { LexTransitive(a, b, c); }
  }

  /** Exactly one of less, equal and greater holds. */
  lemma ZLessTotal(s: real, a: seq<Byte>, t: real, b: seq<Byte>)
    ensures ZLess(s, a, t, b) || (s == t && a == b) || ZLess(t, b, s, a)
    ensures !(ZLess(s, a, t, b) && ZLess(t, b, s, a))
    ensures ZLess(s, a, t, b) ==> s != t || a != b
  {
    MemCmpIsLex(a, b);
    MemCmpIsLex(b, a);
    LexTotal(a, b);
  }

  predicate Below(n: AvlNode, score: real, key: seq<Byte>) {
    ZLess(n.score, n.key, score, key)
  }

  ghost predicate Sorted(s: seq<AvlNode>) {
    forall i, j :: 0 <= i < j < |s| ==> Below(s[i], s[j].score, s[j].key)
  }

  /** The number of leading elements below the pair; in a sorted sequence, its rank. */
  ghost function Rank(s: seq<AvlNode>, score: real, key: seq<Byte>): nat {
    if s == [] || !Below(s[0], score, key) then 0 else 1 + Rank(s[1..], score, key)
  }

  /** The rank splits a sorted sequence into what is below the pair and what is not. */
  lemma {:induction false} RankSplits(s: seq<AvlNode>, score: real, key: seq<Byte>)
    requires Sorted(s)
    ensures Rank(s, score, key) <= |s|
    ensures forall i :: 0 <= i < |s| ==> (Below(s[i], score, key) <==> i < Rank(s, score, key))
  {
    if s != [] {
      if Below(s[0], score, key) {
        RankSplits(s[1..], score, key);
        forall i | 0 <= i < |s| ensures Below(s[i], score, key) <==> i < Rank(s, score, key) {
          if i > 0 { assert s[i] == s[1..][i - 1]; }
        }
      } else {
        forall i | 0 < i < |s| ensures !Below(s[i], score, key) {
          if Below(s[i], score, key) {
            ZLessTransitive(s[0].score, s[0].key, s[i].score, s[i].key, score, key);
          }
        }
      }
    }
  }

  /** By rising score, and by rising key where scores are equal. */
  ghost predicate Rising(s: seq<AvlNode>) {
    forall i, j :: 0 <= i < j < |s| ==>
      s[i].score < s[j].score || (s[i].score == s[j].score && Lex(s[i].key, s[j].key))
  }

  lemma SortedRises(s: seq<AvlNode>)
    ensures Sorted(s) <==> Rising(s)
  {
    forall i, j | 0 <= i < j < |s|
      ensures Below(s[i], s[j].score, s[j].key) <==>
        s[i].score < s[j].score || (s[i].score == s[j].score && Lex(s[i].key, s[j].key))
    {
      ZLessIs(s[i].score, s[i].key, s[j].score, s[j].key);
    }
  }

  /** Before the rank come the members of smaller score, or of that score and a smaller key; from it on the others. */
  lemma RankInScores(s: seq<AvlNode>, score: real, key: seq<Byte>)
    requires Rising(s)
    ensures Rank(s, score, key) <= |s|
    ensures forall i :: 0 <= i < |s| ==>
      (i < Rank(s, score, key) <==> s[i].score < score || (s[i].score == score && Lex(s[i].key, key)))
  {
    SortedRises(s);
    RankSplits(s, score, key);
    forall i | 0 <= i < |s|
      ensures i < Rank(s, score, key) <==> s[i].score < score || (s[i].score == score && Lex(s[i].key, key))
    {
      ZLessIs(s[i].score, s[i].key, score, key);
    }
  }

  lemma {:induction false} RankUnique(s: seq<AvlNode>, score: real, key: seq<Byte>, k: nat)
    requires k <= |s|
    requires forall i :: 0 <= i < k ==> Below(s[i], score, key)
    requires k < |s| ==> !Below(s[k], score, key)
    ensures Rank(s, score, key) == k
  {
    if k > 0 {
      forall i | 0 <= i < k - 1 ensures Below(s[1..][i], score, key) { assert s[1..][i] == s[i + 1]; }
      RankUnique(s[1..], score, key, k - 1);
    }
  }

  /** Inserting a fresh element between what is below it and what is not keeps the order strict. */
  lemma SortedInsert(a: seq<AvlNode>, x: AvlNode, b: seq<AvlNode>)
    requires Sorted(a + b)
    requires forall n :: n in a ==> Below(n, x.score, x.key)
    requires forall n :: n in b ==> !Below(n, x.score, x.key) && (n.score != x.score || n.key != x.key)
    ensures Sorted(a + [x] + b)
  {
    var s, t := a + b, a + [x] + b;
    forall i, j | 0 <= i < j < |t| ensures Below(t[i], t[j].score, t[j].key) {
      if j < |a| { assert t[i] == s[i] && t[j] == s[j]; }
      else if j == |a| { assert t[i] in a; }
      else if i < |a| { assert t[i] == s[i] && t[j] == s[j - 1]; }
      else if i == |a| {
        assert t[j] in b;
        ZLessTotal(t[j].score, t[j].key, x.score, x.key);
      } else { assert t[i] == s[i - 1] && t[j] == s[j - 1]; }
    }
  }

  lemma SortedRemove(a: seq<AvlNode>, x: AvlNode, b: seq<AvlNode>)
    requires Sorted(a + [x] + b)
    ensures Sorted(a + b)
  {
    var s, t := a + [x] + b, a + b;
    forall i, j | 0 <= i < j < |t| ensures Below(t[i], t[j].score, t[j].key) {
      assert t[i] == s[if i < |a| then i else i + 1] && t[j] == s[if j < |a| then j else j + 1];
    }
  }
}
