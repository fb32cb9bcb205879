/** Sorting by a numeric key, keeping the order of equal keys. */
module Sorting {

  ghost predicate Ordered<T>(s: seq<T>, key: T -> real) {
    forall i, j :: 0 <= i < j < |s| ==> key(s[i]) <= key(s[j])
  }

  // The elements with one key, in order of appearance.
  function WithKey<T>(s: seq<T>, key: T -> real, x: real): seq<T> {
    if s == [] then [] else (if key(s[0]) == x then [s[0]] else []) + WithKey(s[1..], key, x)
  }

  // An element goes in front of the first one whose key is not smaller.
  function Insert<T>(a: T, s: seq<T>, key: T -> real): seq<T> {
    if s == [] || key(a) <= key(s[0]) then [a] + s else [s[0]] + Insert(a, s[1..], key)
  }

  // sorted(s, key=key)
  function Sorted<T>(s: seq<T>, key: T -> real): seq<T> {
    if s == [] then [] else Insert(s[0], Sorted(s[1..], key), key)
  }

  lemma {:induction false} InsertPermutes<T>(a: T, s: seq<T>, key: T -> real)
    ensures multiset(Insert(a, s, key)) == multiset{a} + multiset(s)
  {
    if !(s == [] || key(a) <= key(s[0])) {
      InsertPermutes(a, s[1..], key);
      assert s == [s[0]] + s[1..];
    }
  }

  lemma {:induction false} InsertOrdered<T>(a: T, s: seq<T>, key: T -> real)
    requires Ordered(s, key)
    ensures Ordered(Insert(a, s, key), key)
    ensures forall k :: 0 <= k < |Insert(a, s, key)| ==> Insert(a, s, key)[k] == a || Insert(a, s, key)[k] in s
  {
    if !(s == [] || key(a) <= key(s[0])) {
      InsertOrdered(a, s[1..], key);
    }
  }

  lemma PutFront<T>(a: T, s: seq<T>, key: T -> real, x: real)
    ensures WithKey([a] + s, key, x) == (if key(a) == x then [a] else []) + WithKey(s, key, x)
  {
    assert ([a] + s)[1..] == s;
  }

  lemma {:induction false} InsertStable<T>(a: T, s: seq<T>, key: T -> real, x: real)
    ensures WithKey(Insert(a, s, key), key, x) == WithKey([a] + s, key, x)
  {
    if !(s == [] || key(a) <= key(s[0])) {
      hide WithKey;
      var rest := Insert(a, s[1..], key);
      InsertStable(a, s[1..], key, x);
      assert s == [s[0]] + s[1..];
      PutFront(a, s[1..], key, x);
      PutFront(a, s, key, x);
      PutFront(s[0], s[1..], key, x);
      PutFront(s[0], rest, key, x);
    }
  }

  /** Sorting is a stable permutation: the keys ascend and elements with equal keys keep their order. */
  lemma {:induction false} SortedFacts<T>(s: seq<T>, key: T -> real, x: real)
    ensures Ordered(Sorted(s, key), key) && multiset(Sorted(s, key)) == multiset(s)
    ensures WithKey(Sorted(s, key), key, x) == WithKey(s, key, x)
  {
    if s != [] {
      hide Ordered, Insert;
      var rest := Sorted(s[1..], key);
      SortedFacts(s[1..], key, x);
      InsertPermutes(s[0], rest, key);
      InsertOrdered(s[0], rest, key);
      InsertStable(s[0], rest, key, x);
      PutFront(s[0], rest, key, x);
      assert s == [s[0]] + s[1..];
    } else {
      hide Ordered;
      EmptyOrdered(key);
    }
  }

  lemma EmptyOrdered<T>(key: T -> real)
    ensures Ordered<T>([], key)
  {
  }
}
