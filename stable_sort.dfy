/**
 * A reference model of Python's `list.sort(key=...)`: a stable sort by an integer key.
 * Insertion sort is the definition; its lemmas show the result is ordered by the key,
 * is a permutation of the input, keeps the input order among equal keys, and that these
 * three facts pin the result down, so any stable sort gives the same list.
 */
module StableSort {
  import opened Sequences

  /** Non-decreasing by `key`. */
  ghost predicate SortedBy<T>(s: seq<T>, key: T -> int) {
    forall i, j :: 0 <= i < j < |s| ==> key(s[i]) <= key(s[j])
  }

  /** The subsequence of `s` whose key is `k`, in the order of `s`. */
  function WithKey<T>(s: seq<T>, key: T -> int, k: int): seq<T> {
    if s == [] then [] else (if key(s[0]) == k then [s[0]] else []) + WithKey(s[1..], key, k)
  }

  /** Insert `x` in front of the first element whose key is not smaller. */
  function InsertBy<T>(x: T, s: seq<T>, key: T -> int): seq<T> {
    if s == [] then [x]
    else if key(x) <= key(s[0]) then [x] + s
    else [s[0]] + InsertBy(x, s[1..], key)
  }

  /** Stable sort of `s` by `key`. */
  function SortBy<T>(s: seq<T>, key: T -> int): seq<T> {
    if s == [] then [] else InsertBy(s[0], SortBy(s[1..], key), key)
  }

  lemma {:induction false} InsertByPermutes<T>(x: T, s: seq<T>, key: T -> int)
    ensures multiset(InsertBy(x, s, key)) == multiset([x] + s)
  {
    if s != [] && key(x) > key(s[0]) {
      InsertByPermutes(x, s[1..], key);
      assert s == [s[0]] + s[1..];
    }
  }

  lemma {:induction false} InsertBySorted<T>(x: T, s: seq<T>, key: T -> int)
    requires SortedBy(s, key)
    ensures SortedBy(InsertBy(x, s, key), key)
  {
    if s != [] && key(x) > key(s[0]) {
      var rest := InsertBy(x, s[1..], key);
      InsertBySorted(x, s[1..], key);
      InsertByPermutes(x, s[1..], key);
      forall j | 0 <= j < |rest| ensures key(s[0]) <= key(rest[j]) {
        assert rest[j] in multiset([x] + s[1..]);
        if rest[j] != x {
          assert rest[j] in s[1..];
        }
      }
    }
  }

  lemma {:induction false} WithKeySplit<T>(a: seq<T>, b: seq<T>, key: T -> int, k: int)
    ensures WithKey(a + b, key, k) == WithKey(a, key, k) + WithKey(b, key, k)
  {
    if a == [] {
      assert a + b == b;
    } else {
      var head := if key(a[0]) == k then [a[0]] else [];
      assert (a + b)[0] == a[0] && (a + b)[1..] == a[1..] + b;
      assert WithKey(a + b, key, k) == head + WithKey(a[1..] + b, key, k);
      WithKeySplit(a[1..], b, key, k);
      assert WithKey(a, key, k) == head + WithKey(a[1..], key, k);
    }
  }

  lemma {:induction false} InsertByKeepsOrder<T>(x: T, s: seq<T>, key: T -> int, k: int)
    ensures WithKey(InsertBy(x, s, key), key, k) == WithKey([x] + s, key, k)
  {
    if s != [] && key(x) > key(s[0]) {
      var t := s[1..];
      assert s == [s[0]] + t;
      // at most one of x and s[0] has key k, so they commute in the filtered view
      assert WithKey([s[0]], key, k) + WithKey([x], key, k) == WithKey([x], key, k) + WithKey([s[0]], key, k);
      calc {
        WithKey(InsertBy(x, s, key), key, k);
        WithKey([s[0]] + InsertBy(x, t, key), key, k);
        { WithKeySplit([s[0]], InsertBy(x, t, key), key, k); }
        WithKey([s[0]], key, k) + WithKey(InsertBy(x, t, key), key, k);
        { InsertByKeepsOrder(x, t, key, k); WithKeySplit([x], t, key, k); }
        WithKey([s[0]], key, k) + WithKey([x], key, k) + WithKey(t, key, k);
        WithKey([x], key, k) + (WithKey([s[0]], key, k) + WithKey(t, key, k));
        { WithKeySplit([s[0]], t, key, k); }
        WithKey([x], key, k) + WithKey(s, key, k);
        { WithKeySplit([x], s, key, k); }
        WithKey([x] + s, key, k);
      }
    }
  }

  /** The sorted list is ordered by key. */
  lemma {:induction false} SortBySorted<T>(s: seq<T>, key: T -> int)
    ensures SortedBy(SortBy(s, key), key)
  {
    if s != [] {
      SortBySorted(s[1..], key);
      InsertBySorted(s[0], SortBy(s[1..], key), key);
    }
  }

  /** The sorted list holds exactly the input's elements, with their multiplicities. */
  lemma {:induction false} SortByPermutes<T>(s: seq<T>, key: T -> int)
    ensures multiset(SortBy(s, key)) == multiset(s)
  {
    if s != [] {
      SortByPermutes(s[1..], key);
      InsertByPermutes(s[0], SortBy(s[1..], key), key);
      assert s == [s[0]] + s[1..];
    }
  }

  /** Stability: among elements with the same key, the input order survives. */
  lemma {:induction false} SortByStable<T>(s: seq<T>, key: T -> int, k: int)
    ensures WithKey(SortBy(s, key), key, k) == WithKey(s, key, k)
  {
    if s != [] {
      SortByStable(s[1..], key, k);
      InsertByKeepsOrder(s[0], SortBy(s[1..], key), key, k);
      WithKeySplit([s[0]], SortBy(s[1..], key), key, k);
      WithKeySplit([s[0]], s[1..], key, k);
      assert s == [s[0]] + s[1..];
    }
  }

  lemma {:induction false} WithKeyNonEmpty<T>(s: seq<T>, key: T -> int, k: int)
    requires WithKey(s, key, k) != []
    ensures exists i :: 0 <= i < |s| && key(s[i]) == k
  {
    if key(s[0]) != k {
      WithKeyNonEmpty(s[1..], key, k);
      var i :| 0 <= i < |s[1..]| && key(s[1..][i]) == k;
      assert key(s[i + 1]) == k;
    }
  }

  lemma WithKeyOfHead<T>(s: seq<T>, key: T -> int)
    requires s != []
    ensures WithKey(s, key, key(s[0])) != []
  {
  }

  /**
   * A list that is ordered by key and has the same elements per key, in the same order,
   * as another such list is that list: the result of a stable sort is unique.
   */
  lemma {:induction false} StableSortUnique<T>(a: seq<T>, b: seq<T>, key: T -> int)
    requires SortedBy(a, key) && SortedBy(b, key)
    requires forall k :: WithKey(a, key, k) == WithKey(b, key, k)
    ensures a == b
  {
    if a == [] || b == [] {
      if a != [] {
        WithKeyOfHead(a, key);
        assert false;
      } else if b != [] {
        WithKeyOfHead(b, key);
        assert false;
      }
    } else {
      var ka, kb := key(a[0]), key(b[0]);
      assert WithKey(a, key, kb) != [] by { assert WithKey(b, key, kb) != []; }
      WithKeyNonEmpty(a, key, kb);
      assert WithKey(b, key, ka) != [] by { assert WithKey(a, key, ka) != []; }
      WithKeyNonEmpty(b, key, ka);
      assert ka == kb;
      assert a[0] == WithKey(a, key, ka)[0] == WithKey(b, key, ka)[0] == b[0];
      forall k ensures WithKey(a[1..], key, k) == WithKey(b[1..], key, k) {
        var pre := if ka == k then [a[0]] else [];
        assert WithKey(a, key, k) == pre + WithKey(a[1..], key, k);
        assert WithKey(b, key, k) == pre + WithKey(b[1..], key, k);
        assert WithKey(a[1..], key, k) == WithKey(a, key, k)[|pre|..];
        assert WithKey(b[1..], key, k) == WithKey(b, key, k)[|pre|..];
      }
      assert SortedBy(a[1..], key) && SortedBy(b[1..], key);
      StableSortUnique(a[1..], b[1..], key);
      assert a == [a[0]] + a[1..] && b == [b[0]] + b[1..];
    }
  }

  /** In a list without repeats, the elements of key `k` are just `x` when `x` is the only element of that key. */
  lemma {:induction false} WithKeySingle<T>(s: seq<T>, key: T -> int, x: T)
    requires Distinct(s)
    requires x in s
    requires forall y :: y in s && key(y) == key(x) ==> y == x
    ensures WithKey(s, key, key(x)) == [x]
  {
    if s[0] == x {
      WithKeyNone(s[1..], key, key(x));
    } else {
      WithKeySingle(s[1..], key, x);
    }
  }

  /** No element has key `k`: none is selected. */
  lemma {:induction false} WithKeyNone<T>(s: seq<T>, key: T -> int, k: int)
    requires forall y :: y in s ==> key(y) != k
    ensures WithKey(s, key, k) == []
  {
    if s != [] {
      WithKeyNone(s[1..], key, k);
    }
  }

  /**
   * When no two elements share a key, sorting two listings of the same elements, each
   * without repeats, gives the same list: the input order matters only for ties.
   */
  lemma SortByListingIndependent<T>(a: seq<T>, b: seq<T>, key: T -> int)
    requires Distinct(a)
    requires Distinct(b)
    requires forall x :: x in a <==> x in b
    requires forall x, y :: x in a && y in a && key(x) == key(y) ==> x == y
    ensures SortBy(a, key) == SortBy(b, key)
  {
    SortBySorted(a, key);
    SortBySorted(b, key);
    forall k ensures WithKey(SortBy(a, key), key, k) == WithKey(SortBy(b, key), key, k) {
      SortByStable(a, key, k);
      SortByStable(b, key, k);
      if x :| x in a && key(x) == k {
        WithKeySingle(a, key, x);
        WithKeySingle(b, key, x);
      } else {
        WithKeyNone(a, key, k);
        WithKeyNone(b, key, k);
      }
    }
    StableSortUnique(SortBy(a, key), SortBy(b, key), key);
  }
}
