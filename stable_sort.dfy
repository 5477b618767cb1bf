/**
 * Python's `sorted(xs, key=k, reverse=True)` and `xs.sort(key=k, reverse=True)`:
 * a stable sort into descending key order. Elements whose keys are equal keep
 * the order they had in the input, even though the order is reversed.
 */
module StableSort {

  /** Keys never increase from left to right. */
  predicate SortedDesc<T>(s: seq<T>, key: T -> real) {
    forall i, j :: 0 <= i < j < |s| ==> key(s[i]) >= key(s[j])
  }

  /** The elements of `s` whose key is `w`, in the order in which `s` holds them. */
  function WithKey<T>(s: seq<T>, key: T -> real, w: real): seq<T> {
    if s == [] then [] else (if key(s[0]) == w then [s[0]] else []) + WithKey(s[1..], key, w)
  }

  /** Puts `x` in front of the first element of `t` whose key is not above the key of `x`. */
  function Insert<T>(x: T, t: seq<T>, key: T -> real): (r: seq<T>)
    ensures |r| == |t| + 1
    ensures multiset(r) == multiset(t) + multiset{x}
  {
    if t == [] || key(t[0]) <= key(x) then [x] + t
    else
      assert t == [t[0]] + t[1..];
      [t[0]] + Insert(x, t[1..], key)
  }

  /** Every element of `Insert(x, t, key)` is `x` or an element of `t`. */
  lemma InsertMember<T>(x: T, t: seq<T>, key: T -> real, y: T)
    requires y in Insert(x, t, key)
    ensures y == x || y in t
  {
    assert y in multiset(Insert(x, t, key));
  }

  /** Inserting into a sorted sequence keeps it sorted. */
  lemma {:induction false} InsertSorted<T>(x: T, t: seq<T>, key: T -> real)
    requires SortedDesc(t, key)
    ensures SortedDesc(Insert(x, t, key), key)
    decreases |t|
  {
    if t != [] && key(t[0]) > key(x) {
      var rest := Insert(x, t[1..], key);
      InsertSorted(x, t[1..], key);
      forall k | 0 <= k < |rest| ensures key(rest[k]) <= key(t[0]) {
        InsertMember(x, t[1..], key, rest[k]);
      }
      assert Insert(x, t, key) == [t[0]] + rest;
    }
  }

  /** The stable descending sort. */
  function Sort<T>(s: seq<T>, key: T -> real): (r: seq<T>)
    ensures |r| == |s|
    ensures multiset(r) == multiset(s)
    ensures SortedDesc(r, key)
  {
    if s == [] then []
    else
      assert s == [s[0]] + s[1..];
      InsertSorted(s[0], Sort(s[1..], key), key);
      Insert(s[0], Sort(s[1..], key), key)
  }

  lemma {:induction false} InsertWithKey<T>(x: T, t: seq<T>, key: T -> real, w: real)
    ensures WithKey(Insert(x, t, key), key, w) == (if key(x) == w then [x] else []) + WithKey(t, key, w)
    decreases |t|
  {
    if t == [] || key(t[0]) <= key(x) {
      WithKeyCons(x, t, key, w);
    } else {
      InsertWithKey(x, t[1..], key, w);
      InsertPastHead(x, t, key, w);
    }
  }

  /** When `x` goes past the head of `t`, the head keeps its place in front of its key class. */
  lemma InsertPastHead<T>(x: T, t: seq<T>, key: T -> real, w: real)
    requires t != [] && key(t[0]) > key(x)
    requires WithKey(Insert(x, t[1..], key), key, w) == (if key(x) == w then [x] else []) + WithKey(t[1..], key, w)
    ensures WithKey(Insert(x, t, key), key, w) == (if key(x) == w then [x] else []) + WithKey(t, key, w)
  {
    var r := Insert(x, t[1..], key);
    var rest := WithKey(t[1..], key, w);
    assert Insert(x, t, key) == [t[0]] + r;
    WithKeyCons(t[0], r, key, w);
    assert t == [t[0]] + t[1..];
    WithKeyCons(t[0], t[1..], key, w);
    if key(t[0]) == w {
      assert key(x) != w;
      assert WithKey(r, key, w) == rest;
      assert WithKey(t, key, w) == [t[0]] + rest;
    } else {
      assert WithKey(Insert(x, t, key), key, w) == WithKey(r, key, w);
      assert WithKey(t, key, w) == rest;
    }
  }

  lemma WithKeyCons<T>(y: T, t: seq<T>, key: T -> real, w: real)
    ensures WithKey([y] + t, key, w) == (if key(y) == w then [y] else []) + WithKey(t, key, w)
  {
    assert ([y] + t)[1..] == t;
  }

  /** Stability: among the elements of one key, the sort keeps the input order. */
  lemma {:induction false} SortStable<T>(s: seq<T>, key: T -> real, w: real)
    ensures WithKey(Sort(s, key), key, w) == WithKey(s, key, w)
    decreases |s|
  {
    if s != [] {
      SortStable(s[1..], key, w);
      InsertWithKey(s[0], Sort(s[1..], key), key, w);
    }
  }

  /** Cutting `s` after `n` elements cuts every key class to a prefix of itself. */
  lemma {:induction false} WithKeyOfPrefix<T>(s: seq<T>, n: nat, key: T -> real, w: real)
    requires n <= |s|
    ensures WithKey(s[..n], key, w) <= WithKey(s, key, w)
    decreases n
  {
    if n > 0 {
      WithKeyOfPrefix(s[1..], n - 1, key, w);
      assert s[..n][1..] == s[1..][..n - 1];
    }
  }
}
