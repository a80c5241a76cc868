/**
 * An immutable pair of nullable values (ru.selena.util.collections.Pair).
 * Components are compared and hashed by the `equals` and `hashCode` of
 * their own classes, which the functions here take as parameters.
 */
module Pairs {
  import opened JavaTypes

  /** `None` stands for a `null` component. */
  datatype Pair<X, Y> = Pair(first: Option<X>, second: Option<Y>)

  /** `Pair.of(x, y)`. */
  function Of<X, Y>(x: Option<X>, y: Option<Y>): (p: Pair<X, Y>)
    ensures p.first == x && p.second == y
  {
    Pair(x, y)
  }

  /** Two nullable values are equal: both null, or the first non-null and `equals` the second. */
  predicate NullableEquals<T>(eq: (T, T) -> bool, a: Option<T>, b: Option<T>)
  {
    (a.None? && b.None?) || (a.Some? && b.Some? && eq(a.value, b.value))
  }

  /** `Pair.equals`: both components are equal. */
  predicate PairEquals<X, Y>(eqX: (X, X) -> bool, eqY: (Y, Y) -> bool, p: Pair<X, Y>, q: Pair<X, Y>)
  {
    NullableEquals(eqX, p.first, q.first) && NullableEquals(eqY, p.second, q.second)
  }

  /** The hash of a nullable component: 0 for null. */
  function NullableHash<T>(hash: T -> int32, a: Option<T>): int32
  {
    if a.None? then 0 else hash(a.value)
  }

  /** `Pair.hashCode`: `h = 17; h += 31 * h + hash(first); h += 31 * h + hash(second)`. */
  function PairHash<X, Y>(hashX: X -> int32, hashY: Y -> int32, p: Pair<X, Y>): (h: int32)
  {
    Combine(Combine(17, NullableHash(hashX, p.first)), NullableHash(hashY, p.second))
  }

  /** An `equals` that is an equivalence relation. */
  ghost predicate IsEquivalence<T(!new)>(eq: (T, T) -> bool)
  {
    (forall a :: eq(a, a)) &&
    (forall a, b :: eq(a, b) ==> eq(b, a)) &&
    (forall a, b, c :: eq(a, b) && eq(b, c) ==> eq(a, c))
  }

  /** A `hashCode` consistent with `equals`. */
  ghost predicate HashAgrees<T(!new)>(eq: (T, T) -> bool, hash: T -> int32)
  {
    forall a, b :: eq(a, b) ==> hash(a) == hash(b)
  }

  /** Pairs built by `of` are equal exactly when their components are. */
  lemma OfEquals<X, Y>(eqX: (X, X) -> bool, eqY: (Y, Y) -> bool, a: Option<X>, b: Option<Y>, c: Option<X>, d: Option<Y>)
    ensures PairEquals(eqX, eqY, Of(a, b), Of(c, d)) <==> NullableEquals(eqX, a, c) && NullableEquals(eqY, b, d)
  {
  }

  /** `Pair.equals` is an equivalence whenever the components' `equals` are. */
  lemma PairEqualsIsEquivalence<X(!new), Y(!new)>(eqX: (X, X) -> bool, eqY: (Y, Y) -> bool)
    requires IsEquivalence(eqX) && IsEquivalence(eqY)
    ensures IsEquivalence((p, q) => PairEquals(eqX, eqY, p, q))
  {
    var e := (p, q) => PairEquals(eqX, eqY, p, q);
    forall p, q, r | e(p, q) && e(q, r)
      ensures e(p, r)
    {
      assert NullableEquals(eqX, p.first, q.first) && NullableEquals(eqX, q.first, r.first);
    }
  }

  /** Equal pairs have equal hash codes whenever the components' hash codes agree with their `equals`. */
  lemma PairHashAgrees<X(!new), Y(!new)>(eqX: (X, X) -> bool, eqY: (Y, Y) -> bool, hashX: X -> int32, hashY: Y -> int32)
    requires HashAgrees(eqX, hashX) && HashAgrees(eqY, hashY)
    ensures HashAgrees((p, q) => PairEquals(eqX, eqY, p, q), (p: Pair<X, Y>) => PairHash(hashX, hashY, p))
  {
  }

  /** The pair hash is the polynomial `17 * 32^2 + 32 * hash(first) + hash(second)` in `int` arithmetic. */
  lemma PairHashPolynomial<X, Y>(hashX: X -> int32, hashY: Y -> int32, p: Pair<X, Y>)
    ensures PairHash(hashX, hashY, p) == Wrap32(17408 + 32 * NullableHash(hashX, p.first) + NullableHash(hashY, p.second))
  {
    var hx := NullableHash(hashX, p.first);
    var hy := NullableHash(hashY, p.second);
    Wrap32Combine(544 + hx as int, hy);
  }
}
