/** The host's `Array.prototype.sort` with a numeric comparator, which the
    language standard requires to be stable: a stable sort by an integer key,
    ascending. It is written as a functional insertion sort; its properties
    (ordered, a permutation, stable) are proved below. */
module Sorting {

  /** Every element's key is at most the key of every later element. */
  ghost predicate SortedBy<T>(s: seq<T>, key: T -> int)
  {
    forall i, j :: 0 <= i < j < |s| ==> key(s[i]) <= key(s[j])
  }

  /** The elements of `s` whose key is `k`, in their order in `s`. */
  function WithKey<T>(s: seq<T>, key: T -> int, k: int): (r: seq<T>)
    ensures |r| <= |s|
  {
    if s == [] then []
    else (if key(s[0]) == k then [s[0]] else []) + WithKey(s[1..], key, k)
  }

  /** Inserts `x` into `t` after every element whose key is at most `x`'s. */
  function Insert<T>(x: T, t: seq<T>, key: T -> int): (r: seq<T>)
    ensures multiset(r) == multiset(t) + multiset{x}
  {
    if t == [] then [x]
    else if key(x) < key(t[0]) then [x] + t
    else
      assert t == [t[0]] + t[1..];
      [t[0]] + Insert(x, t[1..], key)
  }

  /** Stable sort of `s` by `key`, ascending. */
  function SortBy<T>(s: seq<T>, key: T -> int): (r: seq<T>)
    ensures multiset(r) == multiset(s)
    ensures |r| == |s|
    ensures SortedBy(r, key)
  {
    if s == [] then []
    else
      var init := s[..|s| - 1];
      assert s == init + [s[|s| - 1]];
      var sortedInit := SortBy(init, key);
      InsertSorted(s[|s| - 1], sortedInit, key);
      var r := Insert(s[|s| - 1], sortedInit, key);
      assert |r| == |multiset(r)|;
      r
  }

  /** Sorting keeps exactly the elements it was given. */
  lemma SortByMembers<T>(s: seq<T>, key: T -> int)
    ensures forall x :: x in SortBy(s, key) <==> x in s
  {
    var r := SortBy(s, key);
    forall x ensures x in r <==> x in s {
      assert x in r <==> x in multiset(r);
      assert x in s <==> x in multiset(s);
    }
  }

  lemma SortedTail<T>(t: seq<T>, key: T -> int)
    requires t != [] && SortedBy(t, key)
    ensures SortedBy(t[1..], key)
  {
    var tail := t[1..];
    forall i, j | 0 <= i < j < |tail| ensures key(tail[i]) <= key(tail[j]) {
      assert tail[i] == t[i + 1] && tail[j] == t[j + 1];
    }
  }

  lemma {:induction false} InsertSorted<T>(x: T, t: seq<T>, key: T -> int)
    requires SortedBy(t, key)
    ensures SortedBy(Insert(x, t, key), key)
  {
    if t != [] && key(x) >= key(t[0]) {
      var tail := t[1..];
      var rest := Insert(x, tail, key);
      SortedTail(t, key);
      InsertSorted(x, tail, key);
      LowerBound(x, t, key);
      var r := [t[0]] + rest;
      assert r == Insert(x, t, key);
      forall i, j | 0 <= i < j < |r| ensures key(r[i]) <= key(r[j]) {
        if i == 0 {
          assert r[j] in rest;
        } else {
          assert r[i] == rest[i - 1] && r[j] == rest[j - 1];
        }
      }
    }
  }

  lemma LowerBound<T>(x: T, t: seq<T>, key: T -> int)
    requires t != [] && SortedBy(t, key) && key(t[0]) <= key(x)
    ensures forall y :: y in Insert(x, t[1..], key) ==> key(t[0]) <= key(y)
  {
    var rest := Insert(x, t[1..], key);
    forall y | y in rest ensures key(t[0]) <= key(y) {
      assert y in multiset(rest);
      if y != x {
        assert y in multiset(t[1..]);
        var j :| 0 <= j < |t[1..]| && t[1..][j] == y;
        assert t[j + 1] == y;
      }
    }
  }

  lemma ConsWithKey<T>(y: T, u: seq<T>, key: T -> int, k: int)
    ensures WithKey([y] + u, key, k) == (if key(y) == k then [y] else []) + WithKey(u, key, k)
  {
    assert ([y] + u)[1..] == u;
  }

  lemma {:induction false} WithKeyAppend<T>(a: seq<T>, b: seq<T>, key: T -> int, k: int)
    ensures WithKey(a + b, key, k) == WithKey(a, key, k) + WithKey(b, key, k)
  {
    if a == [] {
      assert a + b == b;
    } else {
      assert a == [a[0]] + a[1..];
      assert a + b == [a[0]] + (a[1..] + b);
      ConsWithKey(a[0], a[1..] + b, key, k);
      WithKeyAppend(a[1..], b, key, k);
    }
  }

  lemma {:induction false} WithKeyNone<T>(t: seq<T>, key: T -> int, k: int)
    requires forall y :: y in t ==> key(y) != k
    ensures WithKey(t, key, k) == []
  {
    if t != [] {
      assert t[0] in t;
      assert forall y :: y in t[1..] ==> y in t;
      WithKeyNone(t[1..], key, k);
    }
  }

  /** Inserting into a sorted sequence puts `x` after every element with the
      same key: per key, `x` is appended. */
  lemma {:induction false} InsertStable<T>(x: T, t: seq<T>, key: T -> int, k: int)
    requires SortedBy(t, key)
    ensures WithKey(Insert(x, t, key), key, k)
         == WithKey(t, key, k) + (if key(x) == k then [x] else [])
  {
    if t == [] {
      ConsWithKey(x, [], key, k);
      assert [x] + [] == [x];
    } else if key(x) < key(t[0]) {
      InsertFrontStable(x, t, key, k);
    } else {
      SortedTail(t, key);
      InsertStable(x, t[1..], key, k);
      InsertAfterHeadStable(x, t, key, k);
    }
  }

  /** When `x` goes after the head of `t`, the head's key class gains nothing. */
  lemma InsertAfterHeadStable<T>(x: T, t: seq<T>, key: T -> int, k: int)
    requires t != [] && key(x) >= key(t[0])
    requires WithKey(Insert(x, t[1..], key), key, k)
          == WithKey(t[1..], key, k) + (if key(x) == k then [x] else [])
    ensures WithKey(Insert(x, t, key), key, k)
         == WithKey(t, key, k) + (if key(x) == k then [x] else [])
  {
    var tail := t[1..];
    var last := if key(x) == k then [x] else [];
    var head := if key(t[0]) == k then [t[0]] else [];
    var mid := WithKey(tail, key, k);
    assert head + (mid + last) == (head + mid) + last;
    ConsWithKey(t[0], Insert(x, tail, key), key, k);
    ConsWithKey(t[0], tail, key, k);
  }

  /** When `x` goes in front, no element of `t` shares its key. */
  lemma InsertFrontStable<T>(x: T, t: seq<T>, key: T -> int, k: int)
    requires SortedBy(t, key) && t != [] && key(x) < key(t[0])
    ensures WithKey(Insert(x, t, key), key, k) == WithKey(t, key, k) + (if key(x) == k then [x] else [])
  {
    ConsWithKey(x, t, key, k);
    if key(x) == k {
      forall y | y in t ensures key(y) != k {
        var i :| 0 <= i < |t| && t[i] == y;
        assert key(t[0]) <= key(t[i]);
      }
      WithKeyNone(t, key, k);
    }
  }

  /** Stability: for every key, the elements with that key keep their
      relative order. Together with `SortedBy` this fixes the result. */
  lemma {:induction false} SortByStable<T>(s: seq<T>, key: T -> int, k: int)
    ensures WithKey(SortBy(s, key), key, k) == WithKey(s, key, k)
  {
    if s != [] {
      var init := s[..|s| - 1];
      var x := s[|s| - 1];
      assert s == init + [x];
      SortByStable(init, key, k);
      InsertStable(x, SortBy(init, key), key, k);
      WithKeyAppend(init, [x], key, k);
      ConsWithKey(x, [], key, k);
      assert [x] + [] == [x];
    }
  }

  /** Where element `i` of `r` lands in `WithKey(r, key, k)`: after the
      elements of key `k` before it. */
  lemma WithKeyPosition<T>(r: seq<T>, key: T -> int, k: int, i: int)
    requires 0 <= i < |r| && key(r[i]) == k
    ensures |WithKey(r[..i], key, k)| < |WithKey(r, key, k)|
    ensures WithKey(r, key, k)[|WithKey(r[..i], key, k)|] == r[i]
  {
    assert r == r[..i] + r[i..];
    WithKeyAppend(r[..i], r[i..], key, k);
    assert r[i..][0] == r[i];
  }

  /** Later elements of key `k` land later in `WithKey(r, key, k)`. */
  lemma WithKeyPositionGrows<T>(r: seq<T>, key: T -> int, k: int, i: int, j: int)
    requires 0 <= i < j <= |r| && key(r[i]) == k
    ensures |WithKey(r[..i], key, k)| < |WithKey(r[..j], key, k)|
  {
    assert r[..j] == r[..i] + r[i..j];
    WithKeyAppend(r[..i], r[i..j], key, k);
    assert r[i..j][0] == r[i];
  }

  /** Every element of `WithKey(s, key, k)` comes from `s`. */
  lemma {:induction false} WithKeyOrigin<T>(s: seq<T>, key: T -> int, k: int, q: int)
    requires 0 <= q < |WithKey(s, key, k)|
    ensures exists b :: 0 <= b < |s| && s[b] == WithKey(s, key, k)[q]
  {
    var w := WithKey(s, key, k);
    if key(s[0]) == k && q == 0 {
      assert s[0] == w[0];
    } else {
      var q' := if key(s[0]) == k then q - 1 else q;
      assert w[q] == WithKey(s[1..], key, k)[q'];
      WithKeyOrigin(s[1..], key, k, q');
      var b :| 0 <= b < |s[1..]| && s[1..][b] == WithKey(s[1..], key, k)[q'];
      assert s[b + 1] == w[q];
    }
  }

  /** Two positions of `WithKey(s, key, k)` come from positions of `s` in
      the same order. */
  lemma {:induction false} WithKeyOriginPair<T>(s: seq<T>, key: T -> int, k: int, p: int, q: int)
    requires 0 <= p < q < |WithKey(s, key, k)|
    ensures exists a, b :: 0 <= a < b < |s| && s[a] == WithKey(s, key, k)[p] && s[b] == WithKey(s, key, k)[q]
  {
    var w := WithKey(s, key, k);
    var tail := WithKey(s[1..], key, k);
    if key(s[0]) == k && p == 0 {
      assert w[q] == tail[q - 1];
      WithKeyOrigin(s[1..], key, k, q - 1);
      var b :| 0 <= b < |s[1..]| && s[1..][b] == tail[q - 1];
      assert s[0] == w[p] && s[b + 1] == w[q];
    } else {
      var d := if key(s[0]) == k then 1 else 0;
      assert w[p] == tail[p - d] && w[q] == tail[q - d];
      WithKeyOriginPair(s[1..], key, k, p - d, q - d);
      var a, b :| 0 <= a < b < |s[1..]| && s[1..][a] == tail[p - d] && s[1..][b] == tail[q - d];
      assert s[a + 1] == w[p] && s[b + 1] == w[q];
    }
  }

  /** Stability in terms of positions: two elements of equal key come out of
      the sort in an order in which they also occur in the input. */
  lemma SortByTieOrder<T>(s: seq<T>, key: T -> int, i: int, j: int)
    requires 0 <= i < j < |SortBy(s, key)| && key(SortBy(s, key)[i]) == key(SortBy(s, key)[j])
    ensures exists a, b :: 0 <= a < b < |s| && s[a] == SortBy(s, key)[i] && s[b] == SortBy(s, key)[j]
  {
    var r := SortBy(s, key);
    var k := key(r[i]);
    SortByStable(s, key, k);
    WithKeyPosition(r, key, k, i);
    WithKeyPosition(r, key, k, j);
    WithKeyPositionGrows(r, key, k, i, j);
    var p, q := |WithKey(r[..i], key, k)|, |WithKey(r[..j], key, k)|;
    WithKeyOriginPair(s, key, k, p, q);
  }

  /** Distinctness of a projection survives sorting. */
  ghost predicate DistinctBy<T, U>(s: seq<T>, proj: T -> U)
  {
    forall i, j :: 0 <= i < j < |s| ==> proj(s[i]) != proj(s[j])
  }

  lemma {:induction false} InsertDistinct<T, U>(x: T, t: seq<T>, key: T -> int, proj: T -> U)
    requires DistinctBy(t, proj)
    requires forall y :: y in t ==> proj(y) != proj(x)
    ensures DistinctBy(Insert(x, t, key), proj)
  {
    if t != [] && key(x) >= key(t[0]) {
      var rest := Insert(x, t[1..], key);
      assert forall y :: y in t[1..] ==> y in t;
      InsertDistinct(x, t[1..], key, proj);
      forall y | y in rest ensures proj(y) != proj(t[0]) {
        assert y in multiset(rest);
        if y != x {
          var j :| 0 <= j < |t[1..]| && t[1..][j] == y;
          assert t[j + 1] == y;
        }
      }
      var r := [t[0]] + rest;
      forall i, j | 0 <= i < j < |r| ensures proj(r[i]) != proj(r[j]) {
        if i == 0 {
          assert r[j] in rest;
        } else {
          assert r[i] == rest[i - 1] && r[j] == rest[j - 1];
        }
      }
    }
  }

  lemma {:induction false} SortByDistinct<T, U>(s: seq<T>, key: T -> int, proj: T -> U)
    requires DistinctBy(s, proj)
    ensures DistinctBy(SortBy(s, key), proj)
  {
    if s != [] {
      var init := s[..|s| - 1];
      var x := s[|s| - 1];
      SortByDistinct(init, key, proj);
      forall y | y in SortBy(init, key) ensures proj(y) != proj(x) {
        assert y in multiset(SortBy(init, key));
        var i :| 0 <= i < |init| && init[i] == y;
        assert s[i] == y;
      }
      InsertDistinct(x, SortBy(init, key), key, proj);
    }
  }
}
