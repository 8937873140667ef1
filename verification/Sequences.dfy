/** Parts of sequences, and sorting by a key. */
module Sequences {
  predicate OccursAt<T(==)>(text: seq<T>, part: seq<T>, k: nat) {
    k + |part| <= |text| && text[k..k + |part|] == part
  }

  predicate Contains<T(==)>(text: seq<T>, part: seq<T>) {
    exists k: nat :: k <= |text| && OccursAt(text, part, k)
  }

  predicate Descending<T>(s: seq<T>, key: T -> int) {
    forall i, j :: 0 <= i < j < |s| ==> key(s[i]) >= key(s[j])
  }

  predicate StrictlyDescending<T>(s: seq<T>, key: T -> int) {
    forall i, j :: 0 <= i < j < |s| ==> key(s[i]) > key(s[j])
  }

  predicate DistinctKeys<T>(s: seq<T>, key: T -> int) {
    forall i, j :: 0 <= i < j < |s| ==> key(s[i]) != key(s[j])
  }

  function Inserted<T(!new,==)>(x: T, s: seq<T>, key: T -> int): (r: seq<T>)
    ensures multiset(r) == multiset(s) + multiset{x}
    ensures forall y :: y in r <==> y == x || y in s
  {
    if s == [] || key(x) > key(s[0]) then [x] + s
    else
      assert s == [s[0]] + s[1..];
      [s[0]] + Inserted(x, s[1..], key)
  }

  lemma {:induction false} InsertedDescending<T(!new)>(x: T, s: seq<T>, key: T -> int)
    requires Descending(s, key)
    ensures Descending(Inserted(x, s, key), key)
  {
    if s != [] && key(x) <= key(s[0]) {
      var rest := Inserted(x, s[1..], key);
      InsertedDescending(x, s[1..], key);
      forall j | 0 <= j < |rest| ensures key(rest[j]) <= key(s[0]) {
        assert rest[j] in rest;
        if rest[j] != x {
          var k :| 0 <= k < |s[1..]| && s[1..][k] == rest[j];
          assert s[k + 1] == rest[j];
        }
      }
      assert Inserted(x, s, key) == [s[0]] + rest;
    }
  }

  /** By key, highest first. */
  function Sorted<T(!new,==)>(s: seq<T>, key: T -> int): (r: seq<T>)
    ensures Descending(r, key) && multiset(r) == multiset(s)
  {
    if s == [] then []
    else
      var n := |s| - 1;
      assert s == s[..n] + [s[n]];
      InsertedDescending(s[n], Sorted(s[..n], key), key);
      Inserted(s[n], Sorted(s[..n], key), key)
  }

  lemma SameKeySame<T(!new)>(s: seq<T>, a: T, b: T, key: T -> int)
    requires DistinctKeys(s, key) && a in s && b in s && key(a) == key(b)
    ensures a == b
  {
  }

  lemma TwiceIn<T(!new)>(r: seq<T>, i: nat, j: nat)
    requires i < j < |r| && r[i] == r[j]
    ensures multiset(r)[r[i]] >= 2
  {
    assert r == r[..j] + [r[j]] + r[j + 1..];
    assert r[i] in r[..j];
  }

  lemma {:induction false} OnceIn<T(!new)>(s: seq<T>, x: T, key: T -> int)
    requires DistinctKeys(s, key)
    ensures multiset(s)[x] <= 1
  {
    if s != [] {
      var n := |s| - 1;
      assert s == s[..n] + [s[n]];
      OnceIn(s[..n], x, key);
      if x == s[n] {
        assert forall j :: 0 <= j < n ==> s[..n][j] != x;
      }
    }
  }

  /** Different keys come out strictly descending, each item once. */
  lemma SortedStrictly<T(!new)>(s: seq<T>, key: T -> int)
    requires DistinctKeys(s, key)
    ensures StrictlyDescending(Sorted(s, key), key)
    ensures forall x :: x in Sorted(s, key) <==> x in s
  {
    var r := Sorted(s, key);
    forall x ensures x in r <==> x in s {
      assert x in multiset(r) <==> x in multiset(s);
    }
    forall i, j | 0 <= i < j < |r| ensures key(r[i]) != key(r[j]) {
      if key(r[i]) == key(r[j]) {
        assert r[i] in r && r[j] in r;
        SameKeySame(s, r[i], r[j], key);
        TwiceIn(r, i, j);
        OnceIn(s, r[i], key);
      }
    }
  }
}
