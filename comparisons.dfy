/** The two range algorithms the list's relational operators are built on,
    `std::equal` and `std::lexicographical_compare`, over the sequences of
    elements that the ranges visit. The element type's `operator<` is the
    parameter `less`; its `operator==` is Dafny equality. */
module Comparisons {

  /** `std::equal(first1, last1, first2)`: each element of `a` equals the
      element of `b` at the same position. The second range must be at
      least as long as the first. */
  function Equal<T(==)>(a: seq<T>, b: seq<T>): (r: bool)
    requires |a| <= |b|
    ensures r <==> a == b[..|a|]
  {
    if a == [] then true
    else
      assert b[..|a|] == [b[0]] + b[1..][..|a| - 1];
      a[0] == b[0] && Equal(a[1..], b[1..])
  }

  /** Neither element is ordered before the other. */
  predicate Equivalent<T>(less: (T, T) -> bool, x: T, y: T)
  {
    !less(x, y) && !less(y, x)
  }

  /** `std::lexicographical_compare(first1, last1, first2, last2)`: walks
      both ranges in step; the first position where one element is ordered
      before the other decides, and when one range runs out first, `a` is
      less exactly when it is `a` that ran out while `b` goes on. */
  function LexicographicalCompare<T>(a: seq<T>, b: seq<T>, less: (T, T) -> bool): bool
  {
    if a == [] || b == [] then a == [] && b != []
    else if less(a[0], b[0]) then true
    else if less(b[0], a[0]) then false
    else LexicographicalCompare(a[1..], b[1..], less)
  }

  /** Position `k` decides `a < b`: the first `k` elements are pairwise
      equivalent, and there either `a` has ended while `b` goes on, or both
      go on and `a`'s element is ordered before `b`'s. */
  ghost predicate DecidesAt<T>(a: seq<T>, b: seq<T>, less: (T, T) -> bool, k: nat)
    requires k <= |a| && k <= |b|
  {
    && (forall i | 0 <= i < k :: Equivalent(less, a[i], b[i]))
    && if k == |a| then k < |b| else k < |b| && less(a[k], b[k])
  }

  /** The reference definition of lexicographic order. */
  ghost predicate LexLess<T>(a: seq<T>, b: seq<T>, less: (T, T) -> bool)
  {
    exists k: nat | k <= |a| && k <= |b| :: DecidesAt(a, b, less, k)
  }

  /** `less` is a strict weak ordering, the requirement the standard library
      places on `operator<`: irreflexive, transitive, and with a transitive
      equivalence. */
  ghost predicate StrictWeakOrder<T(!new)>(less: (T, T) -> bool)
  {
    && (forall x :: !less(x, x))
    && (forall x, y, z | less(x, y) && less(y, z) :: less(x, z))
    && (forall x, y, z | Equivalent(less, x, y) && Equivalent(less, y, z) :: Equivalent(less, x, z))
  }

  /** A strict weak ordering under which only equal elements are equivalent. */
  ghost predicate StrictTotalOrder<T(!new)>(less: (T, T) -> bool)
  {
    && StrictWeakOrder(less)
    && (forall x, y | Equivalent(less, x, y) :: x == y)
  }

  /** Ordering an element before another carries over to equivalent ones,
      and no two elements are ordered both ways. */
  lemma LessRespectsEquivalence<T(!new)>(less: (T, T) -> bool, x: T, y: T, z: T)
    requires StrictWeakOrder(less)
    ensures less(x, y) && Equivalent(less, y, z) ==> less(x, z)
    ensures Equivalent(less, x, y) && less(y, z) ==> less(x, z)
    ensures less(x, y) ==> !less(y, x)
  {
    assert less(z, x) && less(x, y) ==> less(z, y);
    assert Equivalent(less, x, z) && Equivalent(less, z, y) ==> Equivalent(less, x, y);
    assert less(y, z) && less(z, x) ==> less(y, x);
    assert Equivalent(less, y, x) && Equivalent(less, x, z) ==> Equivalent(less, y, z);
    assert less(x, y) && less(y, x) ==> less(x, x);
  }

  /** Past a leading pair of equivalent elements, a deciding position of
      the tails is one of the whole sequences, one further on. */
  lemma DecidesAtTail<T>(a: seq<T>, b: seq<T>, less: (T, T) -> bool, k: nat)
    requires 0 < k <= |a| && k <= |b| && Equivalent(less, a[0], b[0])
    ensures DecidesAt(a, b, less, k) <==> DecidesAt(a[1..], b[1..], less, k - 1)
  {
    if DecidesAt(a[1..], b[1..], less, k - 1) {
      forall i | 0 <= i < k
        ensures Equivalent(less, a[i], b[i])
      {
        if 0 < i {
          assert a[i] == a[1..][i - 1] && b[i] == b[1..][i - 1];
        }
      }
    }
    if DecidesAt(a, b, less, k) {
      forall i | 0 <= i < k - 1
        ensures Equivalent(less, a[1..][i], b[1..][i])
      {
        assert a[1..][i] == a[i + 1] && b[1..][i] == b[i + 1];
      }
    }
  }

  /** The algorithm computes the reference definition. */
  lemma {:induction false} LexicographicalCompareIsLexLess<T>(a: seq<T>, b: seq<T>, less: (T, T) -> bool)
    ensures LexicographicalCompare(a, b, less) <==> LexLess(a, b, less)
    decreases |a|
  {
    if a == [] || b == [] {
      if a == [] && b != [] {
        assert DecidesAt(a, b, less, 0);
      }
    } else if less(a[0], b[0]) {
      assert DecidesAt(a, b, less, 0);
    } else if less(b[0], a[0]) {
      forall k: nat | k <= |a| && k <= |b|
        ensures !DecidesAt(a, b, less, k)
      {
        if 0 < k {
          assert !Equivalent(less, a[0], b[0]);
        }
      }
    } else {
      LexicographicalCompareIsLexLess(a[1..], b[1..], less);
      if LexLess(a, b, less) {
        var k: nat :| k <= |a| && k <= |b| && DecidesAt(a, b, less, k);
        DecidesAtTail(a, b, less, k);
        assert DecidesAt(a[1..], b[1..], less, k - 1);
      }
      if LexLess(a[1..], b[1..], less) {
        var k: nat :| k <= |a| - 1 && k <= |b| - 1 && DecidesAt(a[1..], b[1..], less, k);
        DecidesAtTail(a, b, less, k + 1);
        assert DecidesAt(a, b, less, k + 1);
      }
    }
  }

  /** No sequence is less than itself. */
  lemma LexLessIrreflexive<T>(a: seq<T>, less: (T, T) -> bool)
    requires forall x :: !less(x, x)
    ensures !LexLess(a, a, less)
  {
    forall k: nat | k <= |a|
      ensures !DecidesAt(a, a, less, k)
    {
      if k < |a| {
        assert !less(a[k], a[k]);
      }
    }
  }

  /** If `a` is less than `b`, `b` is not less than `a`. */
  lemma LexLessAsymmetric<T(!new)>(a: seq<T>, b: seq<T>, less: (T, T) -> bool)
    requires StrictWeakOrder(less)
    ensures LexLess(a, b, less) ==> !LexLess(b, a, less)
  {
    if LexLess(a, b, less) {
      var k1: nat :| k1 <= |a| && k1 <= |b| && DecidesAt(a, b, less, k1);
      forall k2: nat | k2 <= |b| && k2 <= |a|
        ensures !DecidesAt(b, a, less, k2)
      {
        if k1 < k2 {
          assert less(a[k1], b[k1]);
        } else if k2 < k1 {
          assert Equivalent(less, a[k2], b[k2]);
        } else if k1 < |a| && k1 < |b| {
          LessRespectsEquivalence(less, a[k1], b[k1], b[k1]);
        }
      }
    }
  }

  /** Lexicographic order is transitive when `less` is a strict weak
      ordering. */
  lemma LexLessTransitive<T(!new)>(a: seq<T>, b: seq<T>, c: seq<T>, less: (T, T) -> bool)
    requires StrictWeakOrder(less)
    requires LexLess(a, b, less) && LexLess(b, c, less)
    ensures LexLess(a, c, less)
  {
    var k1: nat :| k1 <= |a| && k1 <= |b| && DecidesAt(a, b, less, k1);
    var k2: nat :| k2 <= |b| && k2 <= |c| && DecidesAt(b, c, less, k2);
    var k := if k1 < k2 then k1 else k2;
    assert k <= |a| && k <= |c|;
    forall i | 0 <= i < k
      ensures Equivalent(less, a[i], c[i])
    {
      assert Equivalent(less, a[i], b[i]) && Equivalent(less, b[i], c[i]);
    }
    if k1 < k2 {
      if k < |a| {
        assert Equivalent(less, b[k], c[k]);
        LessRespectsEquivalence(less, a[k], b[k], c[k]);
      }
    } else if k2 < k1 {
      assert Equivalent(less, a[k], b[k]);
      LessRespectsEquivalence(less, a[k], b[k], c[k]);
    } else if k < |a| {
      assert less(a[k], b[k]) && less(b[k], c[k]);
    }
    assert DecidesAt(a, c, less, k);
  }

  /** Under a total order, of two sequences one is less than the other or
      they are equal. */
  lemma {:induction false} LexLessTrichotomous<T(!new)>(a: seq<T>, b: seq<T>, less: (T, T) -> bool)
    requires StrictTotalOrder(less)
    ensures LexLess(a, b, less) || LexLess(b, a, less) || a == b
    decreases |a|
  {
    LexicographicalCompareIsLexLess(a, b, less);
    LexicographicalCompareIsLexLess(b, a, less);
    if a != [] && b != [] && !less(a[0], b[0]) && !less(b[0], a[0]) {
      assert Equivalent(less, a[0], b[0]);
      LexLessTrichotomous(a[1..], b[1..], less);
      LexicographicalCompareIsLexLess(a[1..], b[1..], less);
      LexicographicalCompareIsLexLess(b[1..], a[1..], less);
      if a[1..] == b[1..] {
        assert a == [a[0]] + a[1..] && b == [b[0]] + b[1..];
      }
    }
  }

  /** A proper prefix is less than the sequence it begins. */
  lemma PrefixLess<T>(a: seq<T>, b: seq<T>, less: (T, T) -> bool)
    requires forall x :: !less(x, x)
    requires |a| < |b| && a == b[..|a|]
    ensures LexLess(a, b, less)
  {
    forall i | 0 <= i < |a|
      ensures Equivalent(less, a[i], b[i])
    {
      assert a[i] == b[i];
      assert !less(a[i], a[i]);
    }
    assert DecidesAt(a, b, less, |a|);
  }

  /** `operator<` of `int`. */
  function IntLess(x: int, y: int): bool
  {
    x < y
  }

  /** Lists of integers: `{} < {1}` and `{1, 2} < {1, 2, 3} < {1, 3}`, and
      the algorithm agrees. */
  lemma IntExamples()
    ensures LexLess([], [1], IntLess)
    ensures LexLess([1, 2], [1, 2, 3], IntLess)
    ensures LexLess([1, 2, 3], [1, 3], IntLess)
    ensures !LexLess([1, 3], [1, 2, 3], IntLess)
    ensures LexicographicalCompare([1, 2], [1, 3], IntLess)
  {
    assert DecidesAt([], [1], IntLess, 0);
    assert DecidesAt([1, 2], [1, 2, 3], IntLess, 2);
    assert DecidesAt([1, 2, 3], [1, 3], IntLess, 1);
    LexicographicalCompareIsLexLess([1, 3], [1, 2, 3], IntLess);
    assert [1, 3][1..] == [3] && [1, 2, 3][1..] == [2, 3];
  }
}
