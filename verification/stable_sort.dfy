/**
 * `Array.prototype.sort` with a comparator of the form `key(a) - key(b)`:
 * a stable sort by an integer key (stability is required of `sort` since
 * ECMAScript 2019). Modelled as insertion sort over sequences.
 */
module StableSort {

  predicate SortedBy<T>(xs: seq<T>, key: T -> int)
  {
    forall i, j :: 0 <= i < j < |xs| ==> key(xs[i]) <= key(xs[j])
  }

  /** The elements of `xs` whose key is `k`, in their order in `xs`. */
  function WithKey<T>(xs: seq<T>, key: T -> int, k: int): seq<T>
  {
    if xs == [] then []
    else (if key(xs[0]) == k then [xs[0]] else []) + WithKey(xs[1..], key, k)
  }

  lemma WithKeyCons<T>(a: T, s: seq<T>, key: T -> int, k: int)
    ensures WithKey([a] + s, key, k) == (if key(a) == k then [a] else []) + WithKey(s, key, k)
  {
    assert ([a] + s)[1..] == s;
  }

  lemma SortedCons<T>(a: T, s: seq<T>, key: T -> int)
    requires SortedBy(s, key)
    requires forall j :: 0 <= j < |s| ==> key(a) <= key(s[j])
    ensures SortedBy([a] + s, key)
  {
    var r := [a] + s;
    forall i, j | 0 <= i < j < |r|
      ensures key(r[i]) <= key(r[j])
    {
      if i > 0 {
        assert r[i] == s[i - 1] && r[j] == s[j - 1];
      }
    }
  }

  /** Puts `x` before the first element whose key is at least its own. */
  function Insert<T>(x: T, ys: seq<T>, key: T -> int): (r: seq<T>)
    requires SortedBy(ys, key)
    ensures SortedBy(r, key)
    ensures multiset(r) == multiset(ys) + multiset{x}
    ensures forall i :: 0 <= i < |r| ==> r[i] == x || r[i] in ys
  {
    if ys == [] then
      [x]
    else if key(x) <= key(ys[0]) then
      SortedCons(x, ys, key);
      [x] + ys
    else
      var rest := Insert(x, ys[1..], key);
      HeadBelowRest(x, ys, key, rest);
      SortedCons(ys[0], rest, key);
      assert ys == [ys[0]] + ys[1..];
      [ys[0]] + rest
  }

  /** Every element of `rest` is `x` or an element of the sorted `ys[1..]`, so none has a key below `ys[0]`'s. */
  lemma HeadBelowRest<T>(x: T, ys: seq<T>, key: T -> int, rest: seq<T>)
    requires SortedBy(ys, key) && ys != [] && key(x) > key(ys[0])
    requires forall i :: 0 <= i < |rest| ==> rest[i] == x || rest[i] in ys[1..]
    ensures forall j :: 0 <= j < |rest| ==> key(ys[0]) <= key(rest[j])
  {
    forall j | 0 <= j < |rest|
      ensures key(ys[0]) <= key(rest[j])
    {
      if rest[j] != x {
        var m :| 0 <= m < |ys[1..]| && ys[1..][m] == rest[j];
        assert ys[m + 1] == rest[j];
      }
    }
  }

  /** Inserting `x` adds it in front of the elements with its key and changes no other key's elements. */
  lemma {:induction false} InsertWithKey<T>(x: T, ys: seq<T>, key: T -> int, k: int)
    requires SortedBy(ys, key)
    ensures WithKey(Insert(x, ys, key), key, k) == (if key(x) == k then [x] else []) + WithKey(ys, key, k)
  {
    if ys == [] || key(x) <= key(ys[0]) {
      WithKeyCons(x, ys, key, k);
    } else {
      var rest := Insert(x, ys[1..], key);
      InsertWithKey(x, ys[1..], key, k);
      assert Insert(x, ys, key) == [ys[0]] + rest;
      WithKeyPassOver(x, ys, key, k, rest);
    }
  }

  lemma WithKeyPassOver<T>(x: T, ys: seq<T>, key: T -> int, k: int, rest: seq<T>)
    requires ys != [] && key(x) > key(ys[0])
    requires WithKey(rest, key, k) == (if key(x) == k then [x] else []) + WithKey(ys[1..], key, k)
    ensures WithKey([ys[0]] + rest, key, k) == (if key(x) == k then [x] else []) + WithKey(ys, key, k)
  {
    assert ys == [ys[0]] + ys[1..];
    WithKeyCons(ys[0], rest, key, k);
    WithKeyCons(ys[0], ys[1..], key, k);
  }

  /** The sorted permutation of `xs`. */
  function SortByKey<T>(xs: seq<T>, key: T -> int): (r: seq<T>)
    ensures SortedBy(r, key)
    ensures multiset(r) == multiset(xs)
  {
    if xs == [] then []
    else
      assert xs == [xs[0]] + xs[1..];
      Insert(xs[0], SortByKey(xs[1..], key), key)
  }

  /** Stability: for every key, the elements carrying it keep their relative order. */
  lemma {:induction false} SortByKeyStable<T>(xs: seq<T>, key: T -> int, k: int)
    ensures WithKey(SortByKey(xs, key), key, k) == WithKey(xs, key, k)
  {
    if xs != [] {
      SortByKeyStable(xs[1..], key, k);
      InsertWithKey(xs[0], SortByKey(xs[1..], key), key, k);
      assert xs == [xs[0]] + xs[1..];
      WithKeyCons(xs[0], xs[1..], key, k);
    }
  }

  lemma SortByKeyStableAll<T>(xs: seq<T>, key: T -> int)
    ensures forall k :: WithKey(SortByKey(xs, key), key, k) == WithKey(xs, key, k)
  {
    forall k
      ensures WithKey(SortByKey(xs, key), key, k) == WithKey(xs, key, k)
    {
      SortByKeyStable(xs, key, k);
    }
  }
}
