/** The stable, ascending sort the services ask of Python's `sorted`, over a real-valued key. */
module Sorting {

  ghost predicate SortedBy<T>(s: seq<T>, key: T -> real) {
    forall i, j :: 0 <= i < j < |s| ==> key(s[i]) <= key(s[j])
  }

  /** The elements with one key value, in the order they occur. */
  ghost function WithKey<T>(s: seq<T>, key: T -> real, v: real): seq<T> {
    if s == [] then []
    else (if key(s[0]) == v then [s[0]] else []) + WithKey(s[1..], key, v)
  }

  function Insert<T>(x: T, s: seq<T>, key: T -> real): seq<T> {
    if s == [] || key(x) <= key(s[0]) then [x] + s
    else [s[0]] + Insert(x, s[1..], key)
  }

  function SortBy<T>(s: seq<T>, key: T -> real): seq<T> {
    if s == [] then [] else Insert(s[0], SortBy(s[1..], key), key)
  }

  lemma {:induction false} InsertSorts<T>(x: T, s: seq<T>, key: T -> real)
    requires SortedBy(s, key)
    ensures SortedBy(Insert(x, s, key), key)
    ensures multiset(Insert(x, s, key)) == multiset{x} + multiset(s)
  {
    if s == [] || key(x) <= key(s[0]) {
    } else {
      InsertSorts(x, s[1..], key);
      var rest := Insert(x, s[1..], key);
      assert s == [s[0]] + s[1..];
      FromRest(x, s[1..], rest);
      FirstSorts(s[0], rest, key);
    }
  }

  lemma FromRest<T>(x: T, s: seq<T>, rest: seq<T>)
    requires multiset(rest) == multiset{x} + multiset(s)
    ensures forall i :: 0 <= i < |rest| ==> rest[i] == x || exists j :: 0 <= j < |s| && s[j] == rest[i]
  {
    forall i | 0 <= i < |rest| ensures rest[i] == x || rest[i] in s {
      assert rest[i] in multiset(rest);
    }
  }

  lemma FirstSorts<T>(y: T, rest: seq<T>, key: T -> real)
    requires SortedBy(rest, key) && forall i :: 0 <= i < |rest| ==> key(y) <= key(rest[i])
    ensures SortedBy([y] + rest, key)
  {
  }

  lemma {:induction false} InsertIsStable<T>(x: T, s: seq<T>, key: T -> real, v: real)
    ensures WithKey(Insert(x, s, key), key, v) == WithKey([x] + s, key, v)
  {
    if s == [] || key(x) <= key(s[0]) {
    } else {
      InsertIsStable(x, s[1..], key, v);
      var rest := Insert(x, s[1..], key);
      assert ([x] + s[1..])[1..] == s[1..];
      assert ([x] + s)[1..] == s;
      assert ([s[0]] + rest)[1..] == rest;
    }
  }

  /** Sorting orders by key, keeps every element, and keeps the order of elements with equal keys. */
  lemma {:induction false} SortByCorrect<T>(s: seq<T>, key: T -> real, v: real)
    ensures SortedBy(SortBy(s, key), key)
    ensures multiset(SortBy(s, key)) == multiset(s)
    ensures WithKey(SortBy(s, key), key, v) == WithKey(s, key, v)
  {
    if s == [] {
    } else {
      SortByCorrect(s[1..], key, v);
      var rest := SortBy(s[1..], key);
      InsertSorts(s[0], rest, key);
      InsertIsStable(s[0], rest, key, v);
      assert s == [s[0]] + s[1..];
      assert ([s[0]] + rest)[1..] == rest;
    }
  }

  /** Sorting keeps membership and length. */
  lemma SortByMembers<T>(s: seq<T>, key: T -> real)
    ensures |SortBy(s, key)| == |s|
    ensures forall x :: x in SortBy(s, key) <==> x in s
  {
    SortByCorrect(s, key, 0.0);
    assert |multiset(SortBy(s, key))| == |multiset(s)|;
    forall x ensures x in SortBy(s, key) <==> x in s {
      assert x in SortBy(s, key) <==> x in multiset(SortBy(s, key));
    }
  }
}
