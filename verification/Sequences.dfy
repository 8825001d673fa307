// Sequences of any type.
module Sequences {

  /** Where an element of a sequence stands. */
  lemma PlaceOf<T>(s: seq<T>, x: T) returns (i: nat)
    requires x in s
    ensures i < |s| && s[i] == x
  {
    i :| 0 <= i < |s| && s[i] == x;
  }

  predicate AllDifferent<K(==)>(keys: seq<K>) {
    forall i, j :: 0 <= i < j < |keys| ==> keys[i] != keys[j]
  }

  /** How many elements have the key `k`. */
  function CountBy<T, K(==)>(s: seq<T>, key: T -> K, k: K): nat {
    if s == [] then 0 else CountBy(s[..|s| - 1], key, k) + if key(s[|s| - 1]) == k then 1 else 0
  }

  function Sum<K>(keys: seq<K>, f: K -> int): int {
    if keys == [] then 0 else f(keys[0]) + Sum(keys[1..], f)
  }

  function CountOf<T, K(==)>(s: seq<T>, key: T -> K): K -> int {
    k => CountBy(s, key, k)
  }

  lemma {:induction false} SameSum<K>(keys: seq<K>, f: K -> int, g: K -> int)
    requires forall k :: k in keys ==> f(k) == g(k)
    ensures Sum(keys, f) == Sum(keys, g)
  {
    if keys != [] { SameSum(keys[1..], f, g); }
  }

  lemma {:induction false} NothingToCount<T, K>(keys: seq<K>, key: T -> K)
    ensures Sum(keys, CountOf([], key)) == 0
  {
    if keys != [] { NothingToCount<T, K>(keys[1..], key); }
  }

  lemma {:induction false} OneMoreCounted<T, K>(keys: seq<K>, s: seq<T>, key: T -> K)
    requires AllDifferent(keys) && s != []
    ensures Sum(keys, CountOf(s, key)) == Sum(keys, CountOf(s[..|s| - 1], key)) + if key(s[|s| - 1]) in keys then 1 else 0
  {
    if keys != [] { OneMoreCounted(keys[1..], s, key); }
  }

  /** Counts by key, over different keys that cover the sequence, add up to its length. */
  lemma {:induction false} CountsCover<T, K>(keys: seq<K>, s: seq<T>, key: T -> K)
    requires AllDifferent(keys) && forall x :: x in s ==> key(x) in keys
    ensures Sum(keys, CountOf(s, key)) == |s|
  {
    if s == [] {
      NothingToCount<T, K>(keys, key);
    } else {
      var init := s[..|s| - 1];
      assert s[|s| - 1] in s && forall x :: x in init ==> x in s;
      OneMoreCounted(keys, s, key);
      CountsCover(keys, init, key);
    }
  }
}
