/**
 * Python's `sorted(xs, key=k, reverse=True)` on integer keys: a stable sort
 * into non-increasing key order. Items with equal keys keep the order they
 * had in the input.
 */
module Sorting {

  /** Keys never increase from left to right. */
  predicate SortedDesc<T>(s: seq<T>, key: T -> int) {
    forall i, j :: 0 <= i < j < |s| ==> key(s[i]) >= key(s[j])
  }

  /** The items of `s` whose key is `k`, in the order of `s`. */
  function WithKey<T>(s: seq<T>, key: T -> int, k: int): seq<T> {
    if s == [] then []
    else (if key(s[0]) == k then [s[0]] else []) + WithKey(s[1..], key, k)
  }

  /** Put `x` in front of the first item whose key is not larger than its own. */
  function Insert<T>(x: T, s: seq<T>, key: T -> int): seq<T> {
    if s == [] || key(s[0]) <= key(x) then [x] + s
    else [s[0]] + Insert(x, s[1..], key)
  }

  /** The stable descending sort, as insertion of each item into the sorted rest. */
  function SortDesc<T>(s: seq<T>, key: T -> int): (r: seq<T>)
    ensures SortedDesc(r, key)
    ensures multiset(r) == multiset(s)
    ensures |r| == |s|
  {
    if s == [] then []
    else
      var rest := SortDesc(s[1..], key);
      InsertSorted(s[0], rest, key);
      InsertPermutes(s[0], rest, key);
      assert s == [s[0]] + s[1..];
      var r := Insert(s[0], rest, key);
      assert |r| == |multiset(r)|;
      r
  }

  lemma {:induction false} InsertSorted<T>(x: T, s: seq<T>, key: T -> int)
    requires SortedDesc(s, key)
    ensures SortedDesc(Insert(x, s, key), key)
  {
    if s != [] && key(s[0]) > key(x) {
      assert SortedDesc(s[1..], key);
      InsertSorted(x, s[1..], key);
      var t := Insert(x, s[1..], key);
      forall j | 0 <= j < |t| ensures key(s[0]) >= key(t[j]) {
        InsertMembers(x, s[1..], key, t[j]);
        if t[j] != x {
          var m :| 0 <= m < |s[1..]| && s[1..][m] == t[j];
          assert s[1..][m] == s[m + 1];
        }
      }
    }
  }

  lemma {:induction false} InsertMembers<T>(x: T, s: seq<T>, key: T -> int, y: T)
    ensures y in Insert(x, s, key) <==> y == x || y in s
  {
    if s != [] && key(s[0]) > key(x) {
      InsertMembers(x, s[1..], key, y);
      assert s == [s[0]] + s[1..];
    }
  }

  lemma {:induction false} InsertPermutes<T>(x: T, s: seq<T>, key: T -> int)
    ensures multiset(Insert(x, s, key)) == multiset(s) + multiset{x}
  {
    if s != [] && key(s[0]) > key(x) {
      InsertPermutes(x, s[1..], key);
      assert s == [s[0]] + s[1..];
    }
  }

  /** Inserting `x` adds it in front of every item with the same key. */
  lemma {:induction false} InsertWithKey<T>(x: T, s: seq<T>, key: T -> int, k: int)
    ensures WithKey(Insert(x, s, key), key, k) == (if key(x) == k then [x] else []) + WithKey(s, key, k)
  {
    var mine := if key(x) == k then [x] else [];
    if s == [] || key(s[0]) <= key(x) {
      var t := [x] + s;
      assert t[0] == x && t[1..] == s;
      assert WithKey(t, key, k) == mine + WithKey(s, key, k);
    } else {
      var rest := Insert(x, s[1..], key);
      var t := [s[0]] + rest;
      var head := if key(s[0]) == k then [s[0]] else [];
      InsertWithKey(x, s[1..], key, k);
      assert t[0] == s[0] && t[1..] == rest;
      assert WithKey(t, key, k) == head + WithKey(rest, key, k);
      assert WithKey(s, key, k) == head + WithKey(s[1..], key, k);
      assert head == [] || mine == [];
    }
  }

  /** The sort is stable: the items of any one key come out in their input order. */
  lemma {:induction false} SortStable<T>(s: seq<T>, key: T -> int, k: int)
    ensures WithKey(SortDesc(s, key), key, k) == WithKey(s, key, k)
  {
    if s != [] {
      SortStable(s[1..], key, k);
      InsertWithKey(s[0], SortDesc(s[1..], key), key, k);
    }
  }

  /** Every item with key `k` comes from `s` and has key `k`. */
  lemma {:induction false} WithKeyMembers<T>(s: seq<T>, key: T -> int, k: int)
    ensures forall x :: x in WithKey(s, key, k) ==> x in s && key(x) == k
  {
    if s != [] {
      WithKeyMembers(s[1..], key, k);
      var head := if key(s[0]) == k then [s[0]] else [];
      assert WithKey(s, key, k) == head + WithKey(s[1..], key, k);
    }
  }

  /** The position of `s[j]` among the items that share its key. */
  lemma {:induction false} WithKeyHas<T>(s: seq<T>, key: T -> int, j: nat) returns (a: nat)
    requires j < |s|
    ensures a < |WithKey(s, key, key(s[j]))| && WithKey(s, key, key(s[j]))[a] == s[j]
  {
    var k := key(s[j]);
    var head := if key(s[0]) == k then [s[0]] else [];
    assert WithKey(s, key, k) == head + WithKey(s[1..], key, k);
    if j == 0 {
      a := 0;
    } else {
      assert s[1..][j - 1] == s[j];
      var a' := WithKeyHas(s[1..], key, j - 1);
      a := |head| + a';
    }
  }

  /** Two items with the same key appear among the items of that key in the order they have in `s`. */
  lemma {:induction false} WithKeyKeepsOrder<T>(s: seq<T>, key: T -> int, i: nat, j: nat) returns (a: nat, b: nat)
    requires i < j < |s| && key(s[i]) == key(s[j])
    ensures var w := WithKey(s, key, key(s[i]));
      a < b < |w| && w[a] == s[i] && w[b] == s[j]
  {
    var k := key(s[i]);
    var head := if key(s[0]) == k then [s[0]] else [];
    assert WithKey(s, key, k) == head + WithKey(s[1..], key, k);
    assert s[1..][j - 1] == s[j];
    if i == 0 {
      var b' := WithKeyHas(s[1..], key, j - 1);
      a, b := 0, 1 + b';
    } else {
      assert s[1..][i - 1] == s[i];
      var a', b' := WithKeyKeepsOrder(s[1..], key, i - 1, j - 1);
      a, b := |head| + a', |head| + b';
    }
  }

  /** Two items of one key, in order, come from two positions of `s` in the same order. */
  lemma {:induction false} WithKeyOrigin<T>(s: seq<T>, key: T -> int, k: int, a: nat, b: nat) returns (i: nat, j: nat)
    requires a < b < |WithKey(s, key, k)|
    ensures i < j < |s| && s[i] == WithKey(s, key, k)[a] && s[j] == WithKey(s, key, k)[b]
  {
    assert s != [];
    var head := if key(s[0]) == k then [s[0]] else [];
    var rest := WithKey(s[1..], key, k);
    assert WithKey(s, key, k) == head + rest;
    if head != [] && a == 0 {
      WithKeyMembers(s[1..], key, k);
      assert rest[b - 1] in s[1..];
      var j' := FindIn(s[1..], rest[b - 1]);
      i, j := 0, 1 + j';
    } else {
      var i', j' := WithKeyOrigin(s[1..], key, k, a - |head|, b - |head|);
      i, j := i' + 1, j' + 1;
    }
  }

  /** The position of a member of `s`. */
  lemma FindIn<X>(s: seq<X>, x: X) returns (j: nat)
    requires x in multiset(s)
    ensures j < |s| && s[j] == x
  {
    j :| 0 <= j < |s| && s[j] == x;
  }

  /**
   * The first `n` items of the sorted sequence are the top `n`: an item of
   * the input left out of them has a key no larger than any kept, and it
   * is left out only when all `n` places are taken.
   */
  lemma TopOfSorted<T>(s: seq<T>, key: T -> int, n: nat, x: T)
    requires x in multiset(s)
    ensures var sorted := SortDesc(s, key);
      var top := sorted[..if n < |sorted| then n else |sorted|];
      x in top || (|top| == n && forall i :: 0 <= i < |top| ==> key(top[i]) >= key(x))
  {
    var sorted := SortDesc(s, key);
    var m := if n < |sorted| then n else |sorted|;
    var j := FindIn(sorted, x);
    if j < m {
      assert sorted[..m][j] == x;
    }
  }
}
