/** Sorting a sequence ascending by a string key, the model of
    `sorted { key($0) < key($1) }`. The sort is an insertion sort: each element
    goes in front of the first element whose key is not below its own, so
    elements with equal keys keep their input order.
 */
module Sorting {
  import opened Text

  /** Non-decreasing by `key`: no later element has a key below an earlier one's. */
  predicate SortedBy<T>(s: seq<T>, key: T -> string)
    ensures SortedBy(s, key) <==>
      forall i :: 0 <= i < |s| - 1 ==> LessEq(key(s[i]), key(s[i + 1]))
  {
    NeighboursInOrder(s, key);
    forall i, j :: 0 <= i < j < |s| ==> LessEq(key(s[i]), key(s[j]))
  }

  /** Neighbours in order puts every pair in order, as "not above" is transitive. */
  lemma {:induction false} NeighboursInOrder<T>(s: seq<T>, key: T -> string)
    ensures (forall i :: 0 <= i < |s| - 1 ==> LessEq(key(s[i]), key(s[i + 1]))) ==>
      forall i, j :: 0 <= i < j < |s| ==> LessEq(key(s[i]), key(s[j]))
    decreases |s|
  {
    if |s| > 1 && forall i :: 0 <= i < |s| - 1 ==> LessEq(key(s[i]), key(s[i + 1])) {
      assert forall i :: 0 <= i < |s[1..]| - 1 ==> LessEq(key(s[1..][i]), key(s[1..][i + 1]));
      NeighboursInOrder(s[1..], key);
      forall j | 1 < j < |s| ensures LessEq(key(s[0]), key(s[j])) {
        assert LessEq(key(s[1..][0]), key(s[1..][j - 1]));
        LessEqTransitive(key(s[0]), key(s[1]), key(s[j]));
      }
      forall i, j | 0 < i < j < |s| ensures LessEq(key(s[i]), key(s[j])) {
        assert LessEq(key(s[1..][i - 1]), key(s[1..][j - 1]));
      }
    }
  }

  /** Inserts `x` into `s`, in front of the first element whose key is not below `x`'s. */
  function Insert<T>(x: T, s: seq<T>, key: T -> string): (r: seq<T>)
    ensures multiset(r) == multiset(s) + multiset{x}
    decreases |s|
  {
    if s == [] || LessEq(key(x), key(s[0])) then [x] + s
    else
      assert s == [s[0]] + s[1..];
      [s[0]] + Insert(x, s[1..], key)
  }

  lemma {:induction false} InsertSorted<T>(x: T, s: seq<T>, key: T -> string)
    requires SortedBy(s, key)
    ensures SortedBy(Insert(x, s, key), key)
    decreases |s|
  {
    if s == [] || LessEq(key(x), key(s[0])) {
      forall j | 0 <= j < |s| ensures LessEq(key(x), key(s[j])) {
        if j > 0 {
          LessEqTransitive(key(x), key(s[0]), key(s[j]));
        }
      }
    } else {
      LessEqTotal(key(x), key(s[0]));
      InsertSorted(x, s[1..], key);
      var rest := Insert(x, s[1..], key);
      forall j | 0 <= j < |rest| ensures LessEq(key(s[0]), key(rest[j])) {
        assert rest[j] in multiset(rest);
        if rest[j] != x {
          assert rest[j] in s[1..];
        }
      }
    }
  }

  /** The model of `sorted(by:)` with a key comparison: a sorted permutation of `s`. */
  function SortBy<T>(s: seq<T>, key: T -> string): (r: seq<T>)
    ensures multiset(r) == multiset(s)
    ensures |r| == |s|
    ensures SortedBy(r, key)
    decreases |s|
  {
    if s == [] then []
    else
      var rest := SortBy(s[1..], key);
      InsertSorted(s[0], rest, key);
      assert s == [s[0]] + s[1..];
      Insert(s[0], rest, key)
  }

  /** Two permutations of each other hold the same elements. */
  lemma SameElements<T>(a: seq<T>, b: seq<T>)
    requires multiset(a) == multiset(b)
    ensures |a| == |b|
    ensures forall x :: x in a <==> x in b
  {
    assert |a| == |multiset(a)|;
    forall x ensures x in a <==> x in b {
      assert x in a <==> x in multiset(a);
      assert x in b <==> x in multiset(b);
    }
  }

  /** The elements of `s` whose key is `k`, in their order in `s`. */
  function WithKey<T>(s: seq<T>, key: T -> string, k: string): (r: seq<T>)
    ensures |r| <= |s|
    ensures forall i :: 0 <= i < |r| ==> key(r[i]) == k
    ensures forall i :: 0 <= i < |s| && key(s[i]) == k ==> s[i] in r
    decreases |s|
  {
    if s == [] then []
    else if key(s[0]) == k then [s[0]] + WithKey(s[1..], key, k)
    else WithKey(s[1..], key, k)
  }

  /** Selecting by key distributes over concatenation, so it keeps the order of `s`. */
  lemma {:induction false} WithKeyAppend<T>(a: seq<T>, b: seq<T>, key: T -> string, k: string)
    ensures WithKey(a + b, key, k) == WithKey(a, key, k) + WithKey(b, key, k)
    decreases |a|
  {
    if a == [] {
      assert a + b == b;
    } else {
      assert (a + b)[1..] == a[1..] + b;
      WithKeyAppend(a[1..], b, key, k);
    }
  }

  lemma {:induction false} InsertWithKey<T>(x: T, s: seq<T>, key: T -> string, k: string)
    ensures WithKey(Insert(x, s, key), key, k) ==
      (if key(x) == k then [x] else []) + WithKey(s, key, k)
    decreases |s|
  {
    if s == [] || LessEq(key(x), key(s[0])) {
      assert ([x] + s)[1..] == s;
    } else {
      var r := Insert(x, s, key);
      assert r[0] == s[0] && r[1..] == Insert(x, s[1..], key);
      InsertWithKey(x, s[1..], key, k);
      LessIrreflexive(key(x));
    }
  }

  /** Stability of the model's sort: the elements sharing any one key come out
      in the order they went in. */
  lemma {:induction false} SortByStable<T>(s: seq<T>, key: T -> string, k: string)
    ensures WithKey(SortBy(s, key), key, k) == WithKey(s, key, k)
    decreases |s|
  {
    if s != [] {
      SortByStable(s[1..], key, k);
      InsertWithKey(s[0], SortBy(s[1..], key), key, k);
    }
  }
}
