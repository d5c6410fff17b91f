/** Regrouping of concatenations. */
module Seqs {
  lemma Assoc<T>(a: seq<T>, b: seq<T>, c: seq<T>)
    ensures a + b + c == a + (b + c)
  {
  }

  lemma Assoc4<T>(a: seq<T>, b: seq<T>, c: seq<T>, d: seq<T>)
    ensures a + b + c + d == a + (b + c + d)
  {
  }

  lemma Nil<T>(a: seq<T>)
    ensures [] + a == a && a + [] == a
  {
  }

  /** An element and what is on either side of it, seen from outside. */
  lemma Splice<T>(x: seq<T>, l: seq<T>, n: T, r: seq<T>, y: seq<T>)
    ensures x + (l + [n] + r) + y == x + l + ([n] + r + y)
    ensures x + (l + [n] + r) + y == (x + l + [n]) + r + y
    ensures x + (l + [n] + r) + y == (x + l) + [n] + (r + y)
  {
  }

  lemma Cons<T>(a: seq<T>, b: seq<T>)
    requires a != []
    ensures a + b == [a[0]] + (a[1..] + b) && (a + b)[1..] == a[1..] + b && (a + b)[0] == a[0]
  {
  }

  lemma Around2<T>(s: seq<T>, k: nat)
    requires k + 1 < |s|
    ensures s == s[..k] + [s[k]] + [s[k + 1]] + s[k + 2..]
  {
  }

  lemma Around<T>(s: seq<T>, k: nat)
    requires k < |s|
    ensures s == s[..k] + [s[k]] + s[k + 1..] && s[..k + 1] == s[..k] + [s[k]]
  {
  }
}
