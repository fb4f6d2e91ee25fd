/** Sorting by a real-valued key, as sort.Ints and sort.Slice are used for. */
module Sorting {

  ghost predicate SortedBy<T>(s: seq<T>, key: T -> real) {
    forall i, j :: 0 <= i < j < |s| ==> key(s[i]) <= key(s[j])
  }

  function Insert<T>(x: T, s: seq<T>, key: T -> real): seq<T> {
    if s == [] || key(x) <= key(s[0]) then [x] + s else [s[0]] + Insert(x, s[1..], key)
  }

  function Sort<T>(s: seq<T>, key: T -> real): seq<T> {
    if s == [] then [] else Insert(s[0], Sort(s[1..], key), key)
  }

  lemma {:induction false} InsertKeeps<T>(x: T, s: seq<T>, key: T -> real)
    ensures multiset(Insert(x, s, key)) == multiset{x} + multiset(s)
  {
    if s != [] && key(x) > key(s[0]) {
      InsertKeeps(x, s[1..], key);
      assert s == [s[0]] + s[1..];
    }
  }

  lemma {:induction false} InsertSorts<T>(x: T, s: seq<T>, key: T -> real)
    requires SortedBy(s, key)
    ensures SortedBy(Insert(x, s, key), key)
  {
    if s != [] && key(x) > key(s[0]) {
      InsertSorts(x, s[1..], key);
      InsertKeeps(x, s[1..], key);
      hide Insert;
      FirstIsLeast(s[0], x, s, Insert(x, s[1..], key), key);
    }
  }

  /** What is at least the first element may follow it. */
  lemma FirstIsLeast<T>(first: T, x: T, s: seq<T>, rest: seq<T>, key: T -> real)
    requires s != [] && s[0] == first && SortedBy(s, key) && key(first) <= key(x)
    requires SortedBy(rest, key) && multiset(rest) == multiset{x} + multiset(s[1..])
    ensures SortedBy([first] + rest, key)
  {
    forall j | 0 <= j < |rest|
      ensures key(first) <= key(rest[j])
    {
      assert rest[j] in multiset(rest);
      assert rest[j] == x || rest[j] in s[1..];
    }
  }

  lemma NothingSorted<T>(key: T -> real)
    ensures SortedBy([], key)
  {
  }

  /** The result is sorted and holds the same elements as often. */
  lemma {:induction false} SortSorts<T>(s: seq<T>, key: T -> real)
    ensures SortedBy(Sort(s, key), key) && multiset(Sort(s, key)) == multiset(s) && |Sort(s, key)| == |s|
  {
    hide SortedBy, Insert;
    if s == [] {
      NothingSorted(key);
    } else {
      SortSorts(s[1..], key);
      InsertSorts(s[0], Sort(s[1..], key), key);
      InsertKeeps(s[0], Sort(s[1..], key), key);
      assert s == [s[0]] + s[1..];
    }
    assert |multiset(Sort(s, key))| == |Sort(s, key)| && |multiset(s)| == |s|;
  }
}
