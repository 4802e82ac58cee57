/** Rust's stable sort_by on a real-valued key. */
module Sorting {
  ghost predicate SortedBy<T>(s: seq<T>, key: T -> real) {
    forall i, j :: 0 <= i < j < |s| ==> key(s[i]) <= key(s[j])
  }

  function Insert<T>(x: T, s: seq<T>, key: T -> real): seq<T> {
    if s == [] || key(x) <= key(s[0]) then [x] + s else [s[0]] + Insert(x, s[1..], key)
  }

  function SortBy<T>(s: seq<T>, key: T -> real): seq<T> {
    if s == [] then [] else Insert(s[0], SortBy(s[1..], key), key)
  }

  lemma {:induction false} InsertKeeps<T>(x: T, s: seq<T>, key: T -> real)
    ensures multiset(Insert(x, s, key)) == multiset(s) + multiset{x}
    ensures forall y :: y in Insert(x, s, key) <==> y == x || y in s
  {
    if s != [] && key(x) > key(s[0]) {
      InsertKeeps(x, s[1..], key);
      assert s == [s[0]] + s[1..];
    }
  }

  lemma InsertMember<T>(x: T, s: seq<T>, key: T -> real, y: T)
    requires y in Insert(x, s, key)
    ensures y == x || y in s
  {
    InsertKeeps(x, s, key);
  }

  lemma {:induction false} InsertSorts<T>(x: T, s: seq<T>, key: T -> real)
    requires SortedBy(s, key)
    ensures SortedBy(Insert(x, s, key), key)
  {
    if s != [] && key(x) > key(s[0]) {
      var tail := Insert(x, s[1..], key);
      InsertSorts(x, s[1..], key);
      forall y | y in tail ensures key(s[0]) <= key(y) {
        InsertMember(x, s[1..], key, y);
      }
    }
  }

  /** The result is sorted and holds the same values with the same multiplicities. */
  lemma {:induction false} SortBySorts<T>(s: seq<T>, key: T -> real)
    ensures SortedBy(SortBy(s, key), key)
    ensures multiset(SortBy(s, key)) == multiset(s)
    ensures |SortBy(s, key)| == |s|
  {
    if s != [] {
      SortBySorts(s[1..], key);
      InsertSorts(s[0], SortBy(s[1..], key), key);
      InsertKeeps(s[0], SortBy(s[1..], key), key);
      assert s == [s[0]] + s[1..];
    }
    assert |multiset(SortBy(s, key))| == |multiset(s)|;
  }

  lemma SortByMembers<T>(s: seq<T>, key: T -> real)
    ensures forall x :: x in SortBy(s, key) <==> x in s
  {
    SortBySorts(s, key);
    forall x ensures x in SortBy(s, key) <==> x in s {
      assert x in multiset(SortBy(s, key)) <==> x in multiset(s);
    }
  }
}
