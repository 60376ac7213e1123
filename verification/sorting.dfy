/** Python's `sorted(xs, key=key, reverse=True)` as an insertion sort, and
    `Counter.most_common(n)` / `islice(sorted(...), n)` as its first `n`
    elements. */
module Sorting {

  /** Keys never increase from left to right. */
  predicate SortedDesc<T>(xs: seq<T>, key: T -> int) {
    forall i, j :: 0 <= i < j < |xs| ==> key(xs[i]) >= key(xs[j])
  }

  /** Places `x` ahead of the first element whose key is not above its own,
      so `x` goes in front of the elements with an equal key. `SortDesc`
      inserts the earlier input elements last, which is how equal keys end
      up in input order. */
  function Insert<T>(x: T, ys: seq<T>, key: T -> int): (r: seq<T>)
    requires SortedDesc(ys, key)
    ensures |r| == |ys| + 1
    ensures SortedDesc(r, key)
    ensures multiset(r) == multiset(ys) + multiset{x}
    ensures forall z :: z in r ==> z == x || z in ys
  {
    if |ys| == 0 || key(x) >= key(ys[0]) then [x] + ys
    else
      var tail := Insert(x, ys[1..], key);
      InsertBehind(x, ys, key, tail);
      [ys[0]] + tail
  }

  /** The head of `ys` may stay in front of the insertion into the rest. */
  lemma InsertBehind<T>(x: T, ys: seq<T>, key: T -> int, tail: seq<T>)
    requires |ys| > 0 && key(x) < key(ys[0])
    requires SortedDesc(ys, key) && SortedDesc(tail, key)
    requires multiset(tail) == multiset(ys[1..]) + multiset{x}
    requires forall z :: z in tail ==> z == x || z in ys[1..]
    ensures SortedDesc([ys[0]] + tail, key)
    ensures multiset([ys[0]] + tail) == multiset(ys) + multiset{x}
    ensures forall z :: z in [ys[0]] + tail ==> z == x || z in ys
  {
    assert ys == [ys[0]] + ys[1..];
    var r := [ys[0]] + tail;
    forall i, j | 0 <= i < j < |r| ensures key(r[i]) >= key(r[j]) {
      if i == 0 {
        assert r[j] in tail;
        if r[j] != x {
          var k :| 0 <= k < |ys[1..]| && ys[1..][k] == r[j];
          assert ys[k + 1] == r[j];
        }
      } else {
        assert r[i] == tail[i - 1] && r[j] == tail[j - 1];
      }
    }
  }

  /** `sorted(xs, key=key, reverse=True)`. */
  function SortDesc<T>(xs: seq<T>, key: T -> int): (r: seq<T>)
    ensures |r| == |xs|
    ensures SortedDesc(r, key)
    ensures multiset(r) == multiset(xs)
  {
    if |xs| == 0 then []
    else
      assert xs == [xs[0]] + xs[1..];
      Insert(xs[0], SortDesc(xs[1..], key), key)
  }

  function Min(a: nat, b: nat): nat {
    if a < b then a else b
  }

  /** The `n` elements with the largest keys, largest first. */
  function Top<T>(xs: seq<T>, key: T -> int, n: nat): (r: seq<T>)
    ensures |r| == Min(n, |xs|)
    ensures SortedDesc(r, key)
    ensures multiset(r) <= multiset(xs)
    ensures forall y, i :: y in multiset(xs) - multiset(r) && 0 <= i < |r| ==> key(y) <= key(r[i])
  {
    var s := SortDesc(xs, key);
    var m := Min(n, |s|);
    SplitSorted(s, key, m);
    s[..m]
  }

  /** Cutting a sorted sequence leaves every key behind the cut at most
      every key ahead of it, and the two parts make up the whole. */
  lemma SplitSorted<T>(s: seq<T>, key: T -> int, m: nat)
    requires m <= |s|
    requires SortedDesc(s, key)
    ensures multiset(s[..m]) <= multiset(s)
    ensures forall y, i :: y in multiset(s) - multiset(s[..m]) && 0 <= i < m ==> key(y) <= key(s[i])
  {
    assert s == s[..m] + s[m..];
    assert multiset(s) == multiset(s[..m]) + multiset(s[m..]);
    forall y, i | y in multiset(s) - multiset(s[..m]) && 0 <= i < m
      ensures key(y) <= key(s[i])
    {
      assert y in multiset(s[m..]);
      var j :| 0 <= j < |s[m..]| && s[m..][j] == y;
      assert s[m + j] == y;
    }
  }

  /** With `n` at least the length, every element is shown. */
  lemma TopOfAll<T>(xs: seq<T>, key: T -> int, n: nat)
    requires n >= |xs|
    ensures multiset(Top(xs, key, n)) == multiset(xs)
  {
    var s := SortDesc(xs, key);
    assert s[..|s|] == s;
  }

  /** The elements of `xs` whose key is `k`, in their order in `xs`. */
  function WithKey<T>(xs: seq<T>, key: T -> int, k: int): (r: seq<T>)
    ensures |r| <= |xs|
  {
    if |xs| == 0 then []
    else (if key(xs[0]) == k then [xs[0]] else []) + WithKey(xs[1..], key, k)
  }

  lemma {:induction false} WithKeyAppend<T>(a: seq<T>, b: seq<T>, key: T -> int, k: int)
    ensures WithKey(a + b, key, k) == WithKey(a, key, k) + WithKey(b, key, k)
  {
    if |a| == 0 {
      assert a + b == b;
    } else {
      assert a + b == [a[0]] + (a[1..] + b);
      assert a == [a[0]] + a[1..];
      WithKeyCons(a[0], a[1..] + b, key, k);
      WithKeyCons(a[0], a[1..], key, k);
      WithKeyAppend(a[1..], b, key, k);
    }
  }

  /** Inserting `x` puts it ahead of every element with an equal key and
      leaves the order of the others alone. */
  lemma {:induction false} InsertStable<T>(x: T, ys: seq<T>, key: T -> int, k: int)
    requires SortedDesc(ys, key)
    ensures WithKey(Insert(x, ys, key), key, k) == (if key(x) == k then [x] else []) + WithKey(ys, key, k)
  {
    if |ys| == 0 || key(x) >= key(ys[0]) {
      assert Insert(x, ys, key) == [x] + ys;
      WithKeyCons(x, ys, key, k);
    } else {
      var tail := Insert(x, ys[1..], key);
      assert Insert(x, ys, key) == [ys[0]] + tail;
      InsertStable(x, ys[1..], key, k);
      WithKeyCons(ys[0], tail, key, k);
      WithKeyCons(ys[0], ys[1..], key, k);
      assert [ys[0]] + ys[1..] == ys;
    }
  }

  lemma WithKeyCons<T>(y: T, rest: seq<T>, key: T -> int, k: int)
    ensures WithKey([y] + rest, key, k) == (if key(y) == k then [y] else []) + WithKey(rest, key, k)
  {
    assert ([y] + rest)[1..] == rest;
  }

  /** The sort is stable: for every key, the elements with that key keep
      their input order. */
  lemma {:induction false} SortStable<T>(xs: seq<T>, key: T -> int, k: int)
    ensures WithKey(SortDesc(xs, key), key, k) == WithKey(xs, key, k)
  {
    if |xs| > 0 {
      SortStable(xs[1..], key, k);
      InsertStable(xs[0], SortDesc(xs[1..], key), key, k);
    }
  }

  /** Among elements with an equal key, `Top` keeps the ones that come
      first in `xs`, in their order in `xs`. */
  lemma TopStable<T>(xs: seq<T>, key: T -> int, n: nat, k: int)
    ensures var shown := WithKey(Top(xs, key, n), key, k);
      |shown| <= |WithKey(xs, key, k)| && shown == WithKey(xs, key, k)[..|shown|]
  {
    var s := SortDesc(xs, key);
    var m := Min(n, |s|);
    assert s == s[..m] + s[m..];
    WithKeyAppend(s[..m], s[m..], key, k);
    SortStable(xs, key, k);
  }
}
