/**
  The free comparison operators of vector.h:760-788, over the elements of the
  two vectors. Equality is element-wise (`std::equal` after a size check);
  `<` is `std::lexicographical_compare` with the element type's `<`, which is
  passed in as `lt`; the other four are written in terms of these two exactly
  as the source writes them.
 */
module Relational {

  /** `lt` is irreflexive, transitive and relates any two distinct elements one way or the other. */
  ghost predicate StrictTotalOrder<T(!new)>(lt: (T, T) -> bool)
  {
    && (forall x :: !lt(x, x))
    && (forall x, y, z :: lt(x, y) && lt(y, z) ==> lt(x, z))
    && (forall x, y :: x != y ==> lt(x, y) || lt(y, x))
  }

  /** `operator==` (vector.h:760-763): same size and equal elements position by position. */
  function Equal<T(==)>(a: seq<T>, b: seq<T>): (r: bool)
    ensures r <==> a == b
  {
    |a| == |b| && forall i :: 0 <= i < |a| ==> a[i] == b[i]
  }

  /** `operator!=` (vector.h:765-768). */
  function NotEqual<T(==)>(a: seq<T>, b: seq<T>): (r: bool)
    ensures r <==> a != b
  {
    !Equal(a, b)
  }

  /**
    `operator<` (vector.h:770-773), `std::lexicographical_compare`: walk
    both sequences in step while neither element is smaller than the other;
    `a` is smaller when it runs out while `b` still has an element, or when
    at the first position where one element is smaller, it is `a`'s.
   */
  function Less<T>(a: seq<T>, b: seq<T>, lt: (T, T) -> bool): bool
    decreases |b|
  {
    if |b| == 0 then false
    else if |a| == 0 then true
    else if lt(a[0], b[0]) then true
    else if lt(b[0], a[0]) then false
    else Less(a[1..], b[1..], lt)
  }

  /** `operator<=` (vector.h:775-778): `a < b || a == b`. */
  function LessEq<T(==)>(a: seq<T>, b: seq<T>, lt: (T, T) -> bool): bool
  {
    Less(a, b, lt) || Equal(a, b)
  }

  /** `operator>` (vector.h:780-783): `b < a`. */
  function Greater<T>(a: seq<T>, b: seq<T>, lt: (T, T) -> bool): bool
  {
    Less(b, a, lt)
  }

  /** `operator>=` (vector.h:785-788): `b <= a`. */
  function GreaterEq<T(==)>(a: seq<T>, b: seq<T>, lt: (T, T) -> bool): bool
  {
    LessEq(b, a, lt)
  }

  /**
    The textbook definition of lexicographic order, position `k` being the
    first where the two differ: `a` and `b` agree before `k`, `b` has an
    element at `k`, and `a` either has ended or has a smaller element there.
   */
  ghost predicate FirstDifference<T>(a: seq<T>, b: seq<T>, lt: (T, T) -> bool, k: nat)
  {
    k <= |a| && k < |b| && a[..k] == b[..k] && (k == |a| || lt(a[k], b[k]))
  }

  /** Under a total order, `operator<` is the textbook lexicographic order, in both directions. */
  lemma {:induction false} LessIsLexicographic<T(!new)>(a: seq<T>, b: seq<T>, lt: (T, T) -> bool)
    requires StrictTotalOrder(lt)
    ensures Less(a, b, lt) <==> exists k: nat :: FirstDifference(a, b, lt, k)
  {
    if Less(a, b, lt) {
      LessHasFirstDifference(a, b, lt);
    }
    if k: nat :| FirstDifference(a, b, lt, k) {
      FirstDifferenceIsLess(a, b, lt, k);
    }
  }

  lemma {:induction false} LessHasFirstDifference<T(!new)>(a: seq<T>, b: seq<T>, lt: (T, T) -> bool)
    requires StrictTotalOrder(lt) && Less(a, b, lt)
    ensures exists k: nat :: FirstDifference(a, b, lt, k)
    decreases |b|
  {
    if |a| == 0 || lt(a[0], b[0]) {
      assert FirstDifference(a, b, lt, 0);
    } else {
      assert a[0] == b[0];
      LessHasFirstDifference(a[1..], b[1..], lt);
      var k: nat :| FirstDifference(a[1..], b[1..], lt, k);
      assert a[..k + 1] == [a[0]] + a[1..][..k];
      assert b[..k + 1] == [b[0]] + b[1..][..k];
      assert FirstDifference(a, b, lt, k + 1);
    }
  }

  lemma {:induction false} FirstDifferenceIsLess<T(!new)>(a: seq<T>, b: seq<T>, lt: (T, T) -> bool, k: nat)
    requires StrictTotalOrder(lt) && FirstDifference(a, b, lt, k)
    ensures Less(a, b, lt)
    decreases k
  {
    if k > 0 && |a| > 0 {
      assert a[0] == a[..k][0] == b[..k][0] == b[0];
      assert a[1..][..k - 1] == a[1..k] && b[1..][..k - 1] == b[1..k];
      assert a[1..k] == a[..k][1..] && b[1..k] == b[..k][1..];
      FirstDifferenceIsLess(a[1..], b[1..], lt, k - 1);
    }
  }

  /** Under an irreflexive `lt` no sequence is smaller than itself. */
  lemma {:induction false} LessIrreflexive<T(!new)>(a: seq<T>, lt: (T, T) -> bool)
    requires forall x :: !lt(x, x)
    ensures !Less(a, a, lt)
    decreases |a|
  {
    if |a| > 0 {
      LessIrreflexive(a[1..], lt);
    }
  }

  /** Under a total order exactly one of `a < b`, `a == b`, `b < a` holds. */
  lemma {:induction false} LessTrichotomy<T(!new)>(a: seq<T>, b: seq<T>, lt: (T, T) -> bool)
    requires StrictTotalOrder(lt)
    ensures Less(a, b, lt) || a == b || Less(b, a, lt)
    ensures !(Less(a, b, lt) && Less(b, a, lt))
    ensures a == b ==> !Less(a, b, lt)
    decreases |a|
  {
    if a == b {
      LessIrreflexive(a, lt);
    } else if |a| > 0 && |b| > 0 {
      LessTrichotomy(a[1..], b[1..], lt);
    }
  }

  /** Under a total order `operator<` is transitive. */
  lemma {:induction false} LessTransitive<T(!new)>(a: seq<T>, b: seq<T>, c: seq<T>, lt: (T, T) -> bool)
    requires StrictTotalOrder(lt) && Less(a, b, lt) && Less(b, c, lt)
    ensures Less(a, c, lt)
    decreases |a|
  {
    if |a| > 0 && !lt(a[0], b[0]) {
      assert a[0] == b[0];
      if !lt(b[0], c[0]) {
        assert b[0] == c[0];
        LessTransitive(a[1..], b[1..], c[1..], lt);
      }
    }
  }

  /**
    Under a total order the six operators agree with each other: `<=` is
    "not greater", `>` is "not smaller or equal", `>=` is "not smaller", and
    exactly one of `<`, `==`, `>` holds.
   */
  lemma ComparisonsConsistent<T(!new)>(a: seq<T>, b: seq<T>, lt: (T, T) -> bool)
    requires StrictTotalOrder(lt)
    ensures LessEq(a, b, lt) <==> !Less(b, a, lt)
    ensures Greater(a, b, lt) <==> !LessEq(a, b, lt)
    ensures GreaterEq(a, b, lt) <==> !Less(a, b, lt)
    ensures Less(a, b, lt) || Equal(a, b) || Greater(a, b, lt)
    ensures !(Less(a, b, lt) && Greater(a, b, lt)) && !(Equal(a, b) && Less(a, b, lt))
  {
    LessTrichotomy(a, b, lt);
    LessTrichotomy(b, a, lt);
  }

  /** Under a total order `operator<=` is antisymmetric. */
  lemma LessEqAntisymmetric<T(!new)>(a: seq<T>, b: seq<T>, lt: (T, T) -> bool)
    requires StrictTotalOrder(lt) && LessEq(a, b, lt) && LessEq(b, a, lt)
    ensures a == b
  {
    LessTrichotomy(a, b, lt);
  }
}
