/** Stable sorting by an integer key, as the library sorts the components call. */
module Sorting {

  ghost predicate Ascending<T>(s: seq<T>, key: T -> int) {
    forall i, j | 0 <= i < j < |s| :: key(s[i]) <= key(s[j])
  }

  /** The elements whose key is `k`, in order. */
  function WithKey<T>(s: seq<T>, key: T -> int, k: int): seq<T> {
    if s == [] then []
    else (if key(s[0]) == k then [s[0]] else []) + WithKey(s[1..], key, k)
  }

  function Insert<T>(x: T, s: seq<T>, key: T -> int): seq<T> {
    if s == [] || key(x) <= key(s[0]) then [x] + s
    else [s[0]] + Insert(x, s[1..], key)
  }

  function SortBy<T>(s: seq<T>, key: T -> int): seq<T> {
    if s == [] then [] else Insert(s[0], SortBy(s[1..], key), key)
  }

  lemma {:induction false} InsertKeeps<T>(x: T, s: seq<T>, key: T -> int)
    ensures multiset(Insert(x, s, key)) == multiset(s) + multiset{x}
    ensures forall y | y in Insert(x, s, key) :: y == x || y in s
  {
    if s != [] && key(x) > key(s[0]) {
      InsertKeeps(x, s[1..], key);
      assert s == [s[0]] + s[1..];
    }
  }

  lemma {:induction false} InsertSorts<T>(x: T, s: seq<T>, key: T -> int)
    requires Ascending(s, key)
    ensures Ascending(Insert(x, s, key), key)
  {
    if s != [] && key(x) > key(s[0]) {
      var rest := Insert(x, s[1..], key);
      InsertSorts(x, s[1..], key);
      InsertKeeps(x, s[1..], key);
      forall j | 0 <= j < |rest| ensures key(s[0]) <= key(rest[j]) {
        assert rest[j] in rest;
      }
      assert Insert(x, s, key) == [s[0]] + rest;
    }
  }

  lemma WithKeyOf<T>(x: T, s: seq<T>, key: T -> int, k: int)
    ensures WithKey([x] + s, key, k) == (if key(x) == k then [x] else []) + WithKey(s, key, k)
  {
    assert ([x] + s)[1..] == s;
  }

  /** Insertion goes before the elements of its own key and moves none past
      another of the same key. */
  lemma {:induction false} InsertIsStable<T>(x: T, s: seq<T>, key: T -> int, k: int)
    ensures WithKey(Insert(x, s, key), key, k) == (if key(x) == k then [x] else []) + WithKey(s, key, k)
  {
    if s == [] || key(x) <= key(s[0]) {
      WithKeyOf(x, s, key, k);
    } else {
      InsertIsStable(x, s[1..], key, k);
      WithKeyOf(s[0], Insert(x, s[1..], key), key, k);
      var rest := WithKey(s[1..], key, k);
      if key(x) == k {
        assert [] + ([x] + rest) == [x] + ([] + rest);
      } else {
        assert [] + rest == rest;
        assert [] + WithKey(s, key, k) == WithKey(s, key, k);
      }
    }
  }

  /** A sort returns the same elements in ascending order, and elements of one
      key in the order they came in. */
  lemma {:induction false} SortBySorts<T>(s: seq<T>, key: T -> int)
    ensures Ascending(SortBy(s, key), key)
    ensures multiset(SortBy(s, key)) == multiset(s)
    ensures forall k :: WithKey(SortBy(s, key), key, k) == WithKey(s, key, k)
  {
    if s != [] {
      SortBySorts(s[1..], key);
      InsertSorts(s[0], SortBy(s[1..], key), key);
      InsertKeeps(s[0], SortBy(s[1..], key), key);
      assert s == [s[0]] + s[1..];
      forall k ensures WithKey(SortBy(s, key), key, k) == WithKey(s, key, k) {
        InsertIsStable(s[0], SortBy(s[1..], key), key, k);
      }
    }
  }

  /** The first sorted element is the first one of the lowest key. */
  lemma SortedFirst<T>(s: seq<T>, key: T -> int)
    requires s != []
    ensures SortBy(s, key) != []
    ensures var first := SortBy(s, key)[0];
            (forall x | x in s :: key(first) <= key(x)) && [first] <= WithKey(s, key, key(first))
  {
    SortBySorts(s, key);
    var sorted := SortBy(s, key);
    assert |sorted| == |multiset(sorted)| == |multiset(s)| == |s|;
    forall x | x in s ensures key(sorted[0]) <= key(x) {
      assert x in multiset(sorted);
    }
    assert WithKey(sorted, key, key(sorted[0])) == [sorted[0]] + WithKey(sorted[1..], key, key(sorted[0]));
  }
}
