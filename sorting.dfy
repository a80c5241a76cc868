/**
 * `Collections.sort(list, comparator)`: a stable sort driven by a comparator
 * that returns a negative, zero or positive `int`. The model inserts each
 * element, in list order, after every element it does not compare below,
 * asking `compare(element, other)`. For a comparator that is a consistent
 * total preorder on the elements this is the unique stable sorted order, the
 * one the JDK's sort returns; for an inconsistent comparator the JDK's result
 * depends on its algorithm (run detection, binary insertion, merging) and is
 * not modelled.
 */
module Sorting {
  import opened JavaTypes

  /** `Integer.compare(x, y)` and `Integer.compareTo`: -1, 0 or 1. */
  function IntegerCompare(x: int, y: int): (r: int)
    ensures r < 0 <==> x < y
    ensures r == 0 <==> x == y
  {
    if x < y then -1 else if x == y then 0 else 1
  }

  /** Inserts `x` into `s`, to the right of every element `x` does not compare below. */
  function Insert<T>(x: T, s: seq<T>, compare: (T, T) -> int): (r: seq<T>)
    ensures |r| == |s| + 1
  {
    if s == [] then [x]
    else if compare(x, s[|s| - 1]) < 0 then Insert(x, s[..|s| - 1], compare) + [s[|s| - 1]]
    else s + [x]
  }

  /** The list `Collections.sort` leaves. */
  function Sort<T>(s: seq<T>, compare: (T, T) -> int): (r: seq<T>)
    ensures |r| == |s|
  {
    if s == [] then [] else Insert(s[|s| - 1], Sort(s[..|s| - 1], compare), compare)
  }

  /**
   * On the elements satisfying `ok`, the comparator orders as `key` does
   * (it is a valid comparator for that key there).
   */
  ghost predicate ConsistentFor<T(!new)>(compare: (T, T) -> int, key: T -> int, ok: T -> bool)
  {
    forall a, b :: ok(a) && ok(b) ==> (compare(a, b) < 0 <==> key(a) < key(b))
  }

  predicate AllOk<T>(s: seq<T>, ok: T -> bool)
  {
    forall i :: 0 <= i < |s| ==> ok(s[i])
  }

  predicate SortedBy<T>(s: seq<T>, key: T -> int)
  {
    forall i, j :: 0 <= i < j < |s| ==> key(s[i]) <= key(s[j])
  }

  /** The elements of `s` whose key is `k`, in their order in `s`. */
  function WithKey<T>(s: seq<T>, key: T -> int, k: int): (r: seq<T>)
    ensures |r| <= |s|
  {
    if s == [] then []
    else WithKey(s[..|s| - 1], key, k) + (if key(s[|s| - 1]) == k then [s[|s| - 1]] else [])
  }

  function Map<T, U>(s: seq<T>, f: T -> U): (r: seq<U>)
    ensures |r| == |s|
    ensures forall i :: 0 <= i < |s| ==> r[i] == f(s[i])
  {
    seq(|s|, i requires 0 <= i < |s| => f(s[i]))
  }

  // ---------------------------------------------------------------------
  // permutation

  lemma {:induction false} InsertPermutes<T>(x: T, s: seq<T>, compare: (T, T) -> int)
    ensures multiset(Insert(x, s, compare)) == multiset(s) + multiset{x}
  {
    if s != [] && compare(x, s[|s| - 1]) < 0 {
      var p, last := s[..|s| - 1], s[|s| - 1];
      InsertPermutes(x, p, compare);
      assert s == p + [last];
    }
  }

  /** The sorted list holds the same elements, each as often. */
  lemma {:induction false} SortPermutes<T>(s: seq<T>, compare: (T, T) -> int)
    ensures multiset(Sort(s, compare)) == multiset(s)
  {
    if s != [] {
      var p, last := s[..|s| - 1], s[|s| - 1];
      assert multiset(s) == multiset(p) + multiset{last} by {
        assert s == p + [last];
      }
      SortPermutes(p, compare);
      InsertPermutes(last, Sort(p, compare), compare);
    }
  }

  lemma MapAppend<T, U>(a: seq<T>, b: seq<T>, f: T -> U)
    ensures Map(a + b, f) == Map(a, f) + Map(b, f)
  {
  }

  /** Appending one element adds its image to the projection's multiset. */
  lemma MapSnocMultiset<T, U>(a: seq<T>, y: T, f: T -> U)
    ensures multiset(Map(a + [y], f)) == multiset(Map(a, f)) + multiset{f(y)}
  {
    MapAppend(a, [y], f);
    assert Map([y], f) == [f(y)];
  }

  lemma {:induction false} InsertMapPermutes<T, U>(x: T, s: seq<T>, compare: (T, T) -> int, f: T -> U)
    ensures multiset(Map(Insert(x, s, compare), f)) == multiset(Map(s, f)) + multiset{f(x)}
  {
    if s == [] {
      assert Map([x], f) == [f(x)];
    } else {
      var p, last := s[..|s| - 1], s[|s| - 1];
      assert s == p + [last];
      if compare(x, last) < 0 {
        InsertMapPermutes(x, p, compare, f);
        MapSnocMultiset(Insert(x, p, compare), last, f);
        MapSnocMultiset(p, last, f);
      } else {
        MapSnocMultiset(s, x, f);
      }
    }
  }

  /** A projection of the sorted list holds the same values, each as often, as that of the input. */
  lemma {:induction false} SortMapPermutes<T, U>(s: seq<T>, compare: (T, T) -> int, f: T -> U)
    ensures multiset(Map(Sort(s, compare), f)) == multiset(Map(s, f))
  {
    if s != [] {
      var p, last := s[..|s| - 1], s[|s| - 1];
      SortMapPermutes(p, compare, f);
      InsertMapPermutes(last, Sort(p, compare), compare, f);
      assert s == p + [last];
      MapAppend(p, [last], f);
    }
  }

  // ---------------------------------------------------------------------
  // order

  /** Every element of `Insert(x, s)` is `x` or an element of `s`. */
  lemma {:induction false} InsertElements<T>(x: T, s: seq<T>, compare: (T, T) -> int, ok: T -> bool)
    requires ok(x) && AllOk(s, ok)
    ensures AllOk(Insert(x, s, compare), ok)
  {
    if s != [] && compare(x, s[|s| - 1]) < 0 {
      InsertElements(x, s[..|s| - 1], compare, ok);
    }
  }

  lemma {:induction false} SortElements<T>(s: seq<T>, compare: (T, T) -> int, ok: T -> bool)
    requires AllOk(s, ok)
    ensures AllOk(Sort(s, compare), ok)
  {
    if s != [] {
      SortElements(s[..|s| - 1], compare, ok);
      InsertElements(s[|s| - 1], Sort(s[..|s| - 1], compare), compare, ok);
    }
  }

  lemma {:induction false} InsertBounded<T>(x: T, s: seq<T>, compare: (T, T) -> int, key: T -> int, b: int)
    requires forall i :: 0 <= i < |s| ==> key(s[i]) <= b
    requires key(x) <= b
    ensures forall i :: 0 <= i < |s| + 1 ==> key(Insert(x, s, compare)[i]) <= b
  {
    if s != [] && compare(x, s[|s| - 1]) < 0 {
      InsertBounded(x, s[..|s| - 1], compare, key, b);
    }
  }

  lemma {:induction false} InsertSorted<T(!new)>(x: T, s: seq<T>, compare: (T, T) -> int, key: T -> int, ok: T -> bool)
    requires ConsistentFor(compare, key, ok) && ok(x) && AllOk(s, ok)
    requires SortedBy(s, key)
    ensures SortedBy(Insert(x, s, compare), key)
  {
    if s != [] {
      var p, last := s[..|s| - 1], s[|s| - 1];
      if compare(x, last) < 0 {
        InsertSorted(x, p, compare, key, ok);
        InsertBounded(x, p, compare, key, key(last));
      }
    }
  }

  /** With a comparator that agrees with `key` on the elements, the result is in ascending key order. */
  lemma {:induction false} SortSorts<T(!new)>(s: seq<T>, compare: (T, T) -> int, key: T -> int, ok: T -> bool)
    requires ConsistentFor(compare, key, ok) && AllOk(s, ok)
    ensures SortedBy(Sort(s, compare), key)
  {
    if s != [] {
      var p := s[..|s| - 1];
      SortSorts(p, compare, key, ok);
      SortElements(p, compare, ok);
      InsertSorted(s[|s| - 1], Sort(p, compare), compare, key, ok);
    }
  }

  // ---------------------------------------------------------------------
  // stability

  lemma {:induction false} WithKeyAppend<T>(a: seq<T>, b: seq<T>, key: T -> int, k: int)
    ensures WithKey(a + b, key, k) == WithKey(a, key, k) + WithKey(b, key, k)
  {
    if b != [] {
      var p, last := b[..|b| - 1], b[|b| - 1];
      var tail := if key(last) == k then [last] else [];
      WithKeyAppend(a, p, key, k);
      assert (a + b)[..|a + b| - 1] == a + p;
      assert (a + b)[|a + b| - 1] == last;
      assert WithKey(a + b, key, k) == WithKey(a + p, key, k) + tail;
      assert WithKey(b, key, k) == WithKey(p, key, k) + tail;
    } else {
      assert a + b == a;
    }
  }

  lemma {:induction false} InsertKeepsKeyOrder<T(!new)>(x: T, s: seq<T>, compare: (T, T) -> int, key: T -> int, ok: T -> bool, k: int)
    requires ConsistentFor(compare, key, ok) && ok(x) && AllOk(s, ok)
    requires SortedBy(s, key)
    ensures WithKey(Insert(x, s, compare), key, k) == WithKey(s, key, k) + WithKey([x], key, k)
  {
    if s == [] {
      assert Insert(x, s, compare) == [] + [x];
      WithKeyAppend([], [x], key, k);
    } else {
      var p, last := s[..|s| - 1], s[|s| - 1];
      assert WithKey(s, key, k) == WithKey(p, key, k) + WithKey([last], key, k) by {
        assert s == p + [last];
        WithKeyAppend(p, [last], key, k);
      }
      if compare(x, last) < 0 {
        var wx, wl := WithKey([x], key, k), WithKey([last], key, k);
        assert WithKey(Insert(x, s, compare), key, k) == WithKey(p, key, k) + wx + wl by {
          assert AllOk(p, ok) && SortedBy(p, key);
          InsertKeepsKeyOrder(x, p, compare, key, ok, k);
          WithKeyAppend(Insert(x, p, compare), [last], key, k);
        }
        assert ok(last);
        KeysApart(x, last, key, k);
      } else {
        WithKeyAppend(s, [x], key, k);
      }
    }
  }

  /** Two elements with different keys cannot both carry key `k`. */
  lemma KeysApart<T>(x: T, y: T, key: T -> int, k: int)
    requires key(x) < key(y)
    ensures WithKey([x], key, k) == [] || WithKey([y], key, k) == []
  {
    assert WithKey([x], key, k) == WithKey([], key, k) + (if key(x) == k then [x] else []);
    assert WithKey([y], key, k) == WithKey([], key, k) + (if key(y) == k then [y] else []);
  }

  /**
   * Stability: with a comparator that agrees with `key` on the elements,
   * the elements of each key keep their relative order.
   */
  lemma {:induction false} SortIsStable<T(!new)>(s: seq<T>, compare: (T, T) -> int, key: T -> int, ok: T -> bool, k: int)
    requires ConsistentFor(compare, key, ok) && AllOk(s, ok)
    ensures WithKey(Sort(s, compare), key, k) == WithKey(s, key, k)
  {
    if s != [] {
      var p, last := s[..|s| - 1], s[|s| - 1];
      SortIsStable(p, compare, key, ok, k);
      SortSorts(p, compare, key, ok);
      SortElements(p, compare, ok);
      InsertKeepsKeyOrder(last, Sort(p, compare), compare, key, ok, k);
      assert s == p + [last];
      WithKeyAppend(p, [last], key, k);
    }
  }

  // ---------------------------------------------------------------------
  // comparators that agree

  /** Two comparators agree in sign (below or not) on the elements satisfying `ok`. */
  ghost predicate AgreeOn<T(!new)>(c1: (T, T) -> int, c2: (T, T) -> int, ok: T -> bool)
  {
    forall a, b :: ok(a) && ok(b) ==> (c1(a, b) < 0 <==> c2(a, b) < 0)
  }

  lemma {:induction false} InsertAgrees<T(!new)>(x: T, s: seq<T>, c1: (T, T) -> int, c2: (T, T) -> int, ok: T -> bool)
    requires AgreeOn(c1, c2, ok) && ok(x) && AllOk(s, ok)
    ensures Insert(x, s, c1) == Insert(x, s, c2)
  {
    if s != [] {
      InsertAgrees(x, s[..|s| - 1], c1, c2, ok);
    }
  }

  /** Comparators that agree in sign on the elements sort them alike. */
  lemma {:induction false} SortAgrees<T(!new)>(s: seq<T>, c1: (T, T) -> int, c2: (T, T) -> int, ok: T -> bool)
    requires AgreeOn(c1, c2, ok) && AllOk(s, ok)
    ensures Sort(s, c1) == Sort(s, c2)
  {
    if s != [] {
      var p := s[..|s| - 1];
      SortAgrees(p, c1, c2, ok);
      SortElements(p, c1, ok);
      InsertAgrees(s[|s| - 1], Sort(p, c1), c1, c2, ok);
    }
  }
}
