/**
 * Order-preserving, first-occurrence-wins deduplication by a key: the
 * single pass over a seen-set that `deduplicateEntries` performs, for any
 * element and key type.
 */
module Dedupe {
  import opened Seqs

  /** The keys occurring in `xs`. */
  function KeySet<T, K>(xs: seq<T>, key: T -> K): set<K>
  {
    set i | 0 <= i < |xs| :: key(xs[i])
  }

  /** No two elements of `xs` share a key. */
  predicate DistinctBy<T, K(==)>(xs: seq<T>, key: T -> K)
  {
    forall i, j :: 0 <= i < j < |xs| ==> key(xs[i]) != key(xs[j])
  }

  /** The element at position `i` of `xs` is the first with its key. */
  predicate FirstWithKey<T, K(==)>(xs: seq<T>, key: T -> K, i: int)
  {
    0 <= i < |xs| && forall j :: 0 <= j < i ==> key(xs[j]) != key(xs[i])
  }

  /** Each element of `r` is, in `xs`, the first element with its key. */
  predicate FirstOccurrencesOnly<T(==), K(==)>(r: seq<T>, xs: seq<T>, key: T -> K)
  {
    forall k :: 0 <= k < |r| ==> exists i :: 0 <= i < |xs| && FirstWithKey(xs, key, i) && xs[i] == r[k]
  }

  /**
   * The filter callback run from a seen-set: keep an element exactly when its
   * key has not been seen yet, and record the key.
   */
  function DedupFrom<T(==), K(==)>(xs: seq<T>, key: T -> K, seen: set<K>): (r: seq<T>)
    ensures IsSubseq(r, xs)
    ensures forall i :: 0 <= i < |r| ==> key(r[i]) !in seen
  {
    if xs == [] then []
    else if key(xs[0]) in seen then DedupFrom(xs[1..], key, seen)
    else
      var rest := DedupFrom(xs[1..], key, seen + {key(xs[0])});
      var r := [xs[0]] + rest;
      assert r[1..] == rest;
      r
  }

  lemma KeySetCons<T, K>(xs: seq<T>, key: T -> K)
    requires xs != []
    ensures KeySet(xs, key) == {key(xs[0])} + KeySet(xs[1..], key)
  {
    forall k | k in KeySet(xs, key)
      ensures k in {key(xs[0])} + KeySet(xs[1..], key)
    {
      var i :| 0 <= i < |xs| && key(xs[i]) == k;
      if i > 0 {
        assert key(xs[1..][i - 1]) == k;
      }
    }
    forall k | k in KeySet(xs[1..], key)
      ensures k in KeySet(xs, key)
    {
      var i :| 0 <= i < |xs[1..]| && key(xs[1..][i]) == k;
      assert key(xs[i + 1]) == k;
    }
  }

  lemma KeySetAppend<T, K>(a: seq<T>, b: seq<T>, key: T -> K)
    ensures KeySet(a + b, key) == KeySet(a, key) + KeySet(b, key)
  {
    forall k | k in KeySet(a + b, key)
      ensures k in KeySet(a, key) + KeySet(b, key)
    {
      var i :| 0 <= i < |a + b| && key((a + b)[i]) == k;
      if i < |a| {
        assert key(a[i]) == k;
      } else {
        assert key(b[i - |a|]) == k;
      }
    }
    forall k | k in KeySet(a, key) + KeySet(b, key)
      ensures k in KeySet(a + b, key)
    {
      if k in KeySet(a, key) {
        var i :| 0 <= i < |a| && key(a[i]) == k;
        assert key((a + b)[i]) == k;
      } else {
        var i :| 0 <= i < |b| && key(b[i]) == k;
        assert key((a + b)[|a| + i]) == k;
      }
    }
  }

  /** The output never repeats a key. */
  lemma {:induction false} DedupFromDistinct<T, K>(xs: seq<T>, key: T -> K, seen: set<K>)
    ensures DistinctBy(DedupFrom(xs, key, seen), key)
  {
    if xs != [] {
      var k0 := key(xs[0]);
      if k0 in seen {
        DedupFromDistinct(xs[1..], key, seen);
      } else {
        var rest := DedupFrom(xs[1..], key, seen + {k0});
        DedupFromDistinct(xs[1..], key, seen + {k0});
        var r := [xs[0]] + rest;
        forall i, j | 0 <= i < j < |r|
          ensures key(r[i]) != key(r[j])
        {
          assert r[j] == rest[j - 1];
          if i > 0 {
            assert r[i] == rest[i - 1];
          }
        }
      }
    }
  }

  /** The output holds every key of the input that was not already seen, and no other. */
  lemma {:induction false} DedupFromKeys<T, K>(xs: seq<T>, key: T -> K, seen: set<K>)
    ensures KeySet(DedupFrom(xs, key, seen), key) == KeySet(xs, key) - seen
  {
    if xs != [] {
      var k0 := key(xs[0]);
      KeySetCons(xs, key);
      if k0 in seen {
        DedupFromKeys(xs[1..], key, seen);
      } else {
        var rest := DedupFrom(xs[1..], key, seen + {k0});
        DedupFromKeys(xs[1..], key, seen + {k0});
        var r := [xs[0]] + rest;
        assert r[1..] == rest;
        KeySetCons(r, key);
      }
    }
  }

  /** Every output element is, in the input, the first element with its key. */
  lemma {:induction false} DedupFromFirst<T, K>(xs: seq<T>, key: T -> K, seen: set<K>)
    ensures FirstOccurrencesOnly(DedupFrom(xs, key, seen), xs, key)
  {
    if xs != [] {
      var k0 := key(xs[0]);
      var seen' := if k0 in seen then seen else seen + {k0};
      var rest := DedupFrom(xs[1..], key, seen');
      DedupFromFirst(xs[1..], key, seen');
      forall k | 0 <= k < |rest|
        ensures exists i :: FirstWithKey(xs, key, i) && xs[i] == rest[k]
      {
        var i :| FirstWithKey(xs[1..], key, i) && xs[1..][i] == rest[k];
        ShiftFirst(xs, key, i);
      }
      assert FirstOccurrencesOnly(rest, xs, key);
      if k0 !in seen {
        var r := [xs[0]] + rest;
        assert DedupFrom(xs, key, seen) == r;
        assert FirstWithKey(xs, key, 0);
        forall k | 0 <= k < |r|
          ensures exists i :: FirstWithKey(xs, key, i) && xs[i] == r[k]
        {
          if k == 0 {
            assert xs[0] == r[0];
          } else {
            assert r[k] == rest[k - 1];
          }
        }
      }
    }
  }

  /** A first occurrence in the tail, whose key differs from the head's, is a first occurrence in the whole. */
  lemma ShiftFirst<T, K>(xs: seq<T>, key: T -> K, i: int)
    requires xs != [] && FirstWithKey(xs[1..], key, i) && key(xs[1..][i]) != key(xs[0])
    ensures FirstWithKey(xs, key, i + 1) && xs[i + 1] == xs[1..][i]
  {
    forall j | 0 <= j < i + 1
      ensures key(xs[j]) != key(xs[i + 1])
    {
      if j > 0 {
        assert xs[j] == xs[1..][j - 1];
      }
    }
  }

  /** A list with distinct keys, none of them seen, passes through untouched. */
  lemma {:induction false} DedupFromIdentity<T, K>(xs: seq<T>, key: T -> K, seen: set<K>)
    requires DistinctBy(xs, key) && forall i :: 0 <= i < |xs| ==> key(xs[i]) !in seen
    ensures DedupFrom(xs, key, seen) == xs
  {
    if xs != [] {
      var k0 := key(xs[0]);
      forall i, j | 0 <= i < j < |xs[1..]|
        ensures key(xs[1..][i]) != key(xs[1..][j])
      {
        assert xs[1..][i] == xs[i + 1] && xs[1..][j] == xs[j + 1];
      }
      forall i | 0 <= i < |xs[1..]|
        ensures key(xs[1..][i]) !in seen + {k0}
      {
        assert xs[1..][i] == xs[i + 1];
      }
      DedupFromIdentity(xs[1..], key, seen + {k0});
    }
  }

  /** Over a concatenation, the first part is deduplicated on its own and the second against the first part's keys. */
  lemma {:induction false} DedupFromAppend<T, K>(a: seq<T>, b: seq<T>, key: T -> K, seen: set<K>)
    ensures DedupFrom(a + b, key, seen) == DedupFrom(a, key, seen) + DedupFrom(b, key, seen + KeySet(a, key))
  {
    if a == [] {
      assert a + b == b;
      assert seen + KeySet(a, key) == seen;
    } else {
      var k0 := key(a[0]);
      assert (a + b)[0] == a[0] && (a + b)[1..] == a[1..] + b;
      KeySetCons(a, key);
      if k0 in seen {
        DedupFromAppend(a[1..], b, key, seen);
        assert seen + KeySet(a[1..], key) == seen + KeySet(a, key);
      } else {
        DedupFromAppend(a[1..], b, key, seen + {k0});
        assert seen + {k0} + KeySet(a[1..], key) == seen + KeySet(a, key);
      }
    }
  }

  /** Deduplication keeps only input elements, so a property every input element has holds of every output element. */
  lemma DedupKeeps<T, K>(xs: seq<T>, key: T -> K, p: T -> bool)
    requires forall i :: 0 <= i < |xs| ==> p(xs[i])
    ensures forall k :: 0 <= k < |Dedup(xs, key)| ==> p(Dedup(xs, key)[k])
  {
    var r := Dedup(xs, key);
    forall k | 0 <= k < |r|
      ensures p(r[k])
    {
      var i :| 0 <= i < |xs| && FirstWithKey(xs, key, i) && xs[i] == r[k];
    }
  }

  /** `deduplicateEntries` with a fresh seen-set. */
  function Dedup<T(==), K(==)>(xs: seq<T>, key: T -> K): (r: seq<T>)
    ensures IsSubseq(r, xs)
    ensures DistinctBy(r, key)
    ensures KeySet(r, key) == KeySet(xs, key)
    ensures FirstOccurrencesOnly(r, xs, key)
  {
    DedupFromDistinct(xs, key, {});
    DedupFromKeys(xs, key, {});
    DedupFromFirst(xs, key, {});
    DedupFrom(xs, key, {})
  }

  /**
   * Deduplicating `a + b` starts with the deduplication of `a`, unchanged,
   * and everything after it has a key that `a` does not have.
   */
  lemma DedupPrefixWins<T, K>(a: seq<T>, b: seq<T>, key: T -> K)
    ensures |Dedup(a, key)| <= |Dedup(a + b, key)|
    ensures Dedup(a + b, key)[..|Dedup(a, key)|] == Dedup(a, key)
    ensures forall x :: x in Dedup(a + b, key)[|Dedup(a, key)|..] ==> key(x) !in KeySet(a, key)
  {
    DedupFromAppend(a, b, key, {});
    assert {} + KeySet(a, key) == KeySet(a, key);
    var first := DedupFrom(a, key, {});
    var tail := DedupFrom(b, key, KeySet(a, key));
    assert Dedup(a + b, key) == first + tail;
    assert Dedup(a + b, key)[|first|..] == tail;
  }

  /** Deduplicating twice is deduplicating once. */
  lemma DedupIdempotent<T, K>(xs: seq<T>, key: T -> K)
    ensures Dedup(Dedup(xs, key), key) == Dedup(xs, key)
  {
    DedupFromIdentity(Dedup(xs, key), key, {});
  }

  /**
   * A reference definition built from the other end: the last element is
   * kept exactly when no earlier element has its key.
   */
  function FirstOccurrences<T, K(==)>(xs: seq<T>, key: T -> K): seq<T>
  {
    if xs == [] then []
    else
      var init := xs[..|xs| - 1];
      var last := xs[|xs| - 1];
      FirstOccurrences(init, key) + (if key(last) in KeySet(init, key) then [] else [last])
  }

  /** The single pass over a seen-set agrees with the reference definition. */
  lemma {:induction false} DedupIsFirstOccurrences<T, K>(xs: seq<T>, key: T -> K)
    ensures Dedup(xs, key) == FirstOccurrences(xs, key)
  {
    if xs != [] {
      var init := xs[..|xs| - 1];
      var last := xs[|xs| - 1];
      assert xs == init + [last];
      DedupIsFirstOccurrences(init, key);
      DedupFromAppend(init, [last], key, {});
      assert {} + KeySet(init, key) == KeySet(init, key);
    }
  }
}
