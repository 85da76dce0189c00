/** Stable descending sort by a real-valued key.

    JavaScript's `Array.prototype.sort` is stable, so every descending sort in
    the visualisations (`rank`, the bar-chart top-N, the treemap aggregate and
    the recipient ranking) keeps elements with equal keys in their input order.
    This module defines that sort once, as an insertion sort, and proves it
    returns an ordered permutation of its input that keeps the relative order
    of equal keys. */
module Sorting {
  import Seqs

  /** `s` is ordered by non-increasing key. */
  predicate Descending<T>(s: seq<T>, key: T -> real) {
    forall i, j :: 0 <= i < j < |s| ==> key(s[i]) >= key(s[j])
  }

  /** The subsequence of `s` whose elements have key exactly `v`, in order. */
  function WithKey<T>(s: seq<T>, key: T -> real, v: real): seq<T> {
    if |s| == 0 then []
    else (if key(s[0]) == v then [s[0]] else []) + WithKey(s[1..], key, v)
  }

  /** A sort is stable when, for every key, the elements carrying it appear in
      the output in the same order as in the input. */
  ghost predicate SameKeyOrder<T>(r: seq<T>, s: seq<T>, key: T -> real) {
    forall v :: WithKey(r, key, v) == WithKey(s, key, v)
  }

  lemma {:induction false} WithKeyAppend<T>(a: seq<T>, b: seq<T>, key: T -> real, v: real)
    ensures WithKey(a + b, key, v) == WithKey(a, key, v) + WithKey(b, key, v)
  {
    if |a| == 0 {
      assert a + b == b;
    } else {
      var ab := a + b;
      var h: seq<T> := if key(a[0]) == v then [a[0]] else [];
      assert ab[0] == a[0];
      assert ab[1..] == a[1..] + b;
      assert WithKey(ab, key, v) == h + WithKey(ab[1..], key, v);
      assert WithKey(a, key, v) == h + WithKey(a[1..], key, v);
      WithKeyAppend(a[1..], b, key, v);
      Seqs.AppendAssoc(h, WithKey(a[1..], key, v), WithKey(b, key, v));
    }
  }

  /** Places `x` in front of the first element of `s` whose key is not greater
      than its own. */
  function Insert<T>(x: T, s: seq<T>, key: T -> real): (r: seq<T>)
    ensures |r| == |s| + 1
    ensures multiset(r) == multiset(s) + multiset{x}
  {
    if |s| == 0 || key(s[0]) <= key(x) then [x] + s
    else
      assert s == [s[0]] + s[1..];
      [s[0]] + Insert(x, s[1..], key)
  }

  lemma {:induction false} InsertDescending<T>(x: T, s: seq<T>, key: T -> real)
    requires Descending(s, key)
    ensures Descending(Insert(x, s, key), key)
  {
    if |s| == 0 || key(s[0]) <= key(x) {
    } else {
      var rest := Insert(x, s[1..], key);
      InsertDescending(x, s[1..], key);
      assert s == [s[0]] + s[1..];
      forall e | e in rest ensures key(e) <= key(s[0]) {
        assert e in multiset(rest);
        if e != x {
          assert e in multiset(s[1..]);
        }
      }
      assert Insert(x, s, key) == [s[0]] + rest;
    }
  }

  /** Inserting `x` adds it in front of every element that shares its key: the
      elements it passes all have strictly greater keys. */
  lemma {:induction false} InsertWithKey<T>(x: T, s: seq<T>, key: T -> real, v: real)
    ensures WithKey(Insert(x, s, key), key, v) == (if key(x) == v then [x] else []) + WithKey(s, key, v)
  {
    if |s| == 0 || key(s[0]) <= key(x) {
      WithKeyAppend([x], s, key, v);
    } else {
      InsertWithKey(x, s[1..], key, v);
      PassWithKey(x, s, key, v);
    }
  }

  lemma PassWithKey<T>(x: T, s: seq<T>, key: T -> real, v: real)
    requires |s| > 0 && key(s[0]) > key(x)
    requires WithKey(Insert(x, s[1..], key), key, v) == (if key(x) == v then [x] else []) + WithKey(s[1..], key, v)
    ensures WithKey(Insert(x, s, key), key, v) == (if key(x) == v then [x] else []) + WithKey(s, key, v)
  {
    var rest := Insert(x, s[1..], key);
    var h: seq<T> := if key(s[0]) == v then [s[0]] else [];
    var mine: seq<T> := if key(x) == v then [x] else [];
    assert Insert(x, s, key) == [s[0]] + rest;
    assert WithKey(Insert(x, s, key), key, v) == h + WithKey(rest, key, v);
    assert WithKey(s, key, v) == h + WithKey(s[1..], key, v);
    if key(x) == v {
      assert h == [];
    }
    assert h + mine == mine + h;
    Seqs.AppendAssoc(h, mine, WithKey(s[1..], key, v));
    Seqs.AppendAssoc(mine, h, WithKey(s[1..], key, v));
  }

  /** Stable sort by non-increasing key. */
  function SortDesc<T>(s: seq<T>, key: T -> real): (r: seq<T>)
    ensures |r| == |s|
    ensures multiset(r) == multiset(s)
    ensures Descending(r, key)
    ensures SameKeyOrder(r, s, key)
  {
    if |s| == 0 then []
    else
      var tail := SortDesc(s[1..], key);
      assert s == [s[0]] + s[1..];
      InsertDescending(s[0], tail, key);
      assert SameKeyOrder(Insert(s[0], tail, key), s, key) by {
        forall v ensures WithKey(Insert(s[0], tail, key), key, v) == WithKey(s, key, v) {
          InsertWithKey(s[0], tail, key, v);
          WithKeyAppend([s[0]], s[1..], key, v);
        }
      }
      Insert(s[0], tail, key)
  }

  /** `s` is ordered by non-decreasing key. */
  predicate Ascending<T>(s: seq<T>, key: T -> real) {
    forall i, j :: 0 <= i < j < |s| ==> key(s[i]) <= key(s[j])
  }

  /** The key that orders by the opposite direction. */
  function Negated<T>(key: T -> real): T -> real {
    x => -key(x)
  }

  /** Stable sort by non-decreasing key: the descending sort on the negated key. */
  function SortAsc<T>(s: seq<T>, key: T -> real): (r: seq<T>)
    ensures |r| == |s|
    ensures multiset(r) == multiset(s)
    ensures Ascending(r, key)
    ensures SameKeyOrder(r, s, Negated(key))
  {
    var r := SortDesc(s, Negated(key));
    assert forall i :: 0 <= i < |r| ==> Negated(key)(r[i]) == -key(r[i]);
    r
  }

  /** `sort(...).slice(0, n)` on the stable descending sort: the `n` largest,
      or all when there are fewer. */
  function Top<T>(s: seq<T>, key: T -> real, n: nat): (r: seq<T>)
    ensures |r| == if n <= |s| then n else |s|
  {
    SortDesc(s, key)[..if n <= |s| then n else |s|]
  }

  /** What `Top` keeps is in descending order and drawn from `s`, and every
      element it leaves out is no larger than the smallest it keeps. */
  lemma TopIsTop<T>(s: seq<T>, key: T -> real, n: nat)
    ensures Descending(Top(s, key, n), key)
    ensures multiset(Top(s, key, n)) <= multiset(s)
    ensures var r := Top(s, key, n);
      |r| > 0 ==> forall x :: x in multiset(s) - multiset(r) ==> key(x) <= key(r[|r| - 1])
  {
    var t := SortDesc(s, key);
    var m := if n <= |s| then n else |s|;
    assert Top(s, key, n) == t[..m];
    PrefixIsTop(t, key, m);
  }

  lemma {:induction false} PrefixIsTop<T>(t: seq<T>, key: T -> real, m: nat)
    requires Descending(t, key) && m <= |t|
    ensures Descending(t[..m], key)
    ensures multiset(t[..m]) <= multiset(t)
    ensures m > 0 ==> forall x :: x in multiset(t) - multiset(t[..m]) ==> key(x) <= key(t[m - 1])
  {
    assert t == t[..m] + t[m..];
    assert multiset(t) == multiset(t[..m]) + multiset(t[m..]);
    if m > 0 {
      forall x | x in multiset(t) - multiset(t[..m]) ensures key(x) <= key(t[m - 1]) {
        assert x in multiset(t[m..]);
        var j :| 0 <= j < |t[m..]| && t[m..][j] == x;
        assert t[m + j] == x;
      }
    }
  }
}
