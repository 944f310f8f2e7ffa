/** Binary partition search and stable sorting, as the standard library provides them. */
module Ordering {
  import opened Wrappers

  ghost predicate Partitioned<T>(s: seq<T>, p: T -> bool) {
    forall i, j :: 0 <= i <= j < |s| && p(s[j]) ==> p(s[i])
  }

  /** Binary search for the first element that does not satisfy p. */
  function PartitionPoint<T>(s: seq<T>, p: T -> bool, lo: nat, hi: nat): (k: nat)
    requires lo <= hi <= |s|
    ensures lo <= k <= hi
    ensures Partitioned(s, p) ==> (forall i :: lo <= i < k ==> p(s[i])) && (forall i :: k <= i < hi ==> !p(s[i]))
    decreases hi - lo
  {
    if lo == hi then lo else
    var mid := (lo + hi) / 2;
    if p(s[mid]) then PartitionPoint(s, p, mid + 1, hi) else PartitionPoint(s, p, lo, mid)
  }

  ghost predicate SortedBy<T>(s: seq<T>, key: T -> int) {
    forall i, j :: 0 <= i < j < |s| ==> key(s[i]) <= key(s[j])
  }

  function Insert<T>(x: T, s: seq<T>, key: T -> int): (r: seq<T>)
    ensures |r| == |s| + 1
  {
    if s == [] || key(x) <= key(s[0]) then [x] + s else [s[0]] + Insert(x, s[1..], key)
  }

  /** Stable sort by key. */
  function SortBy<T>(s: seq<T>, key: T -> int): (r: seq<T>)
    ensures |r| == |s|
  {
    if s == [] then [] else Insert(s[0], SortBy(s[1..], key), key)
  }

  lemma {:induction false} InsertSorts<T>(x: T, s: seq<T>, key: T -> int)
    requires SortedBy(s, key)
    ensures SortedBy(Insert(x, s, key), key)
    ensures Insert(x, s, key)[0] == x || (s != [] && Insert(x, s, key)[0] == s[0])
  {
    if s != [] && key(x) > key(s[0]) {
      InsertSorts(x, s[1..], key);
      SortedCons(s[0], Insert(x, s[1..], key), key);
    }
  }

  lemma SortedCons<T>(x: T, s: seq<T>, key: T -> int)
    requires SortedBy(s, key) && (s != [] ==> key(x) <= key(s[0]))
    ensures SortedBy([x] + s, key)
  {}

  lemma {:induction false} InsertAdds<T>(x: T, s: seq<T>, key: T -> int)
    ensures multiset(Insert(x, s, key)) == multiset(s) + multiset{x}
  {
    if s != [] && key(x) > key(s[0]) {
      InsertAdds(x, s[1..], key);
      assert s == [s[0]] + s[1..];
    }
  }

  /** Sorting yields a sorted permutation. */
  lemma {:induction false} SortBySorts<T>(s: seq<T>, key: T -> int)
    ensures SortedBy(SortBy(s, key), key)
    ensures multiset(SortBy(s, key)) == multiset(s)
  {
    if s != [] {
      SortBySorts(s[1..], key);
      InsertSorts(s[0], SortBy(s[1..], key), key);
      InsertAdds(s[0], SortBy(s[1..], key), key);
      assert s == [s[0]] + s[1..];
    }
  }

  /** Elements with key k, in order. */
  function WithKey<T>(s: seq<T>, key: T -> int, k: int): seq<T> {
    if s == [] then [] else (if key(s[0]) == k then [s[0]] else []) + WithKey(s[1..], key, k)
  }

  lemma {:induction false} InsertIsStable<T>(x: T, s: seq<T>, key: T -> int, k: int)
    ensures WithKey(Insert(x, s, key), key, k) == (if key(x) == k then [x] else []) + WithKey(s, key, k)
    requires SortedBy(s, key)
  {
    if s == [] || key(x) <= key(s[0]) {
      assert ([x] + s)[1..] == s;
    } else {
      assert SortedBy(s[1..], key);
      InsertIsStable(x, s[1..], key, k);
      var r := Insert(x, s[1..], key);
      assert ([s[0]] + r)[1..] == r;
      hide SortedBy, Insert;
      OneIsEmpty(if key(x) == k then [x] else [], if key(s[0]) == k then [s[0]] else [], WithKey(s[1..], key, k));
    }
  }

  lemma OneIsEmpty<T>(a: seq<T>, b: seq<T>, rest: seq<T>)
    requires a == [] || b == []
    ensures b + (a + rest) == a + (b + rest)
  {
    assert [] + rest == rest && [] + (b + rest) == b + rest && [] + (a + rest) == a + rest;
  }

  /** Elements with equal keys keep their order. */
  lemma {:induction false} SortByIsStable<T>(s: seq<T>, key: T -> int, k: int)
    ensures WithKey(SortBy(s, key), key, k) == WithKey(s, key, k)
  {
    if s != [] {
      SortByIsStable(s[1..], key, k);
      SortBySorts(s[1..], key);
      InsertIsStable(s[0], SortBy(s[1..], key), key, k);
    }
  }
}
