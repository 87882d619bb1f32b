/** Comparisons of two element sequences, as the vector's free comparison
    operators perform them: the three-range std::equal, and
    std::lexicographical_compare driven by the element type's `<`, which is
    passed in as `less`. */
module Comparisons {

  /** std::equal(a.begin(), a.end(), b.begin()): the elements of `a` match the
      first |a| elements of `b`. */
  function RangeEqual<T(==)>(a: seq<T>, b: seq<T>): (r: bool)
    requires |a| <= |b|
    ensures r <==> a == b[..|a|]
  {
    forall i | 0 <= i < |a| :: a[i] == b[i]
  }

  /** std::lexicographical_compare(a, b): walk both sequences together; `a` is
      first if it runs out first or holds the smaller element at the first
      place where one element is smaller than the other. */
  function LexicographicalCompare<T>(a: seq<T>, b: seq<T>, less: (T, T) -> bool): (r: bool)
    ensures |b| == 0 ==> !r
    ensures |a| < |b| && a == b[..|a|] ==> r
    decreases |b|
  {
    if |b| == 0 then false
    else if |a| == 0 then true
    else if less(a[0], b[0]) then true
    else if less(b[0], a[0]) then false
    else LexicographicalCompare(a[1..], b[1..], less)
  }

  // ---- Properties of the element order ----

  ghost predicate Irreflexive<T(!new)>(less: (T, T) -> bool)
  {
    forall x :: !less(x, x)
  }

  ghost predicate Transitive<T(!new)>(less: (T, T) -> bool)
  {
    forall x, y, z :: less(x, y) && less(y, z) ==> less(x, z)
  }

  /** Neither element is smaller than the other. */
  predicate Equivalent<T>(less: (T, T) -> bool, x: T, y: T)
  {
    !less(x, y) && !less(y, x)
  }

  /** The order std::lexicographical_compare expects of `<`. */
  ghost predicate StrictWeakOrder<T(!new)>(less: (T, T) -> bool)
  {
    && Irreflexive(less)
    && Transitive(less)
    && (forall x, y, z :: Equivalent(less, x, y) && Equivalent(less, y, z) ==> Equivalent(less, x, z))
  }

  /** A strict weak order in which only equal elements are equivalent. */
  ghost predicate StrictTotalOrder<T(!new)>(less: (T, T) -> bool)
  {
    && Irreflexive(less)
    && Transitive(less)
    && (forall x, y :: x == y || less(x, y) || less(y, x))
  }

  // ---- Properties of the lexicographic order ----

  /** No sequence orders before itself. */
  lemma {:induction false} LexIrreflexive<T(!new)>(a: seq<T>, less: (T, T) -> bool)
    requires Irreflexive(less)
    ensures !LexicographicalCompare(a, a, less)
    decreases |a|
  {
    if |a| > 0 {
      LexIrreflexive(a[1..], less);
    }
  }

  /** If `a` orders before `b`, `b` does not order before `a`. */
  lemma {:induction false} LexAsymmetric<T(!new)>(a: seq<T>, b: seq<T>, less: (T, T) -> bool)
    requires Irreflexive(less) && Transitive(less)
    ensures LexicographicalCompare(a, b, less) ==> !LexicographicalCompare(b, a, less)
    decreases |b|
  {
    if |a| > 0 && |b| > 0 {
      if less(a[0], b[0]) {
        assert !less(b[0], a[0]);  // else a[0] < b[0] < a[0]
      } else if !less(b[0], a[0]) {
        LexAsymmetric(a[1..], b[1..], less);
      }
    }
  }

  /** In a strict weak order, a smaller element stays smaller across equivalents. */
  lemma LessRespectsEquivalence<T(!new)>(less: (T, T) -> bool, x: T, y: T, z: T)
    requires StrictWeakOrder(less)
    ensures less(x, y) && Equivalent(less, y, z) ==> less(x, z)
    ensures Equivalent(less, x, y) && less(y, z) ==> less(x, z)
  {
    if less(x, y) && Equivalent(less, y, z) {
      assert !less(z, x);              // z < x < y would put z below y
      assert Equivalent(less, z, y);
      assert !Equivalent(less, x, z);  // x ~ z ~ y would make x equivalent to y
    }
    if Equivalent(less, x, y) && less(y, z) {
      assert !less(z, x);              // y < z < x would put y below x
      assert Equivalent(less, y, x);
      assert !Equivalent(less, x, z);  // y ~ x ~ z would make y equivalent to z
    }
  }

  /** The lexicographic order is transitive when the element order is a strict
      weak order. */
  lemma {:induction false} LexTransitive<T(!new)>(a: seq<T>, b: seq<T>, c: seq<T>, less: (T, T) -> bool)
    requires StrictWeakOrder(less)
    requires LexicographicalCompare(a, b, less) && LexicographicalCompare(b, c, less)
    ensures LexicographicalCompare(a, c, less)
    decreases |c|
  {
    assert |b| > 0 && |c| > 0;
    if |a| > 0 {
      if less(a[0], b[0]) {
        if less(b[0], c[0]) {
          assert less(a[0], c[0]);
        } else {
          LessRespectsEquivalence(less, a[0], b[0], c[0]);
        }
      } else {
        assert Equivalent(less, a[0], b[0]);
        if less(b[0], c[0]) {
          LessRespectsEquivalence(less, a[0], b[0], c[0]);
        } else {
          assert Equivalent(less, b[0], c[0]);
          assert Equivalent(less, a[0], c[0]);
          LexTransitive(a[1..], b[1..], c[1..], less);
        }
      }
    }
  }

  /** Incomparability is transitive: when neither of a, b orders before the
      other, nor either of b, c, then neither of a, c does. With irreflexivity,
      asymmetry and transitivity above, the lexicographic order is a strict
      weak order whenever the element order is. */
  lemma {:induction false} LexEquivTransitive<T(!new)>(a: seq<T>, b: seq<T>, c: seq<T>, less: (T, T) -> bool)
    requires StrictWeakOrder(less)
    requires !LexicographicalCompare(a, b, less) && !LexicographicalCompare(b, a, less)
    requires !LexicographicalCompare(b, c, less) && !LexicographicalCompare(c, b, less)
    ensures !LexicographicalCompare(a, c, less) && !LexicographicalCompare(c, a, less)
    decreases |a|
  {
    if |a| > 0 && |b| > 0 && |c| > 0 {
      assert Equivalent(less, a[0], b[0]);
      assert Equivalent(less, b[0], c[0]);
      assert Equivalent(less, a[0], c[0]);
      LexEquivTransitive(a[1..], b[1..], c[1..], less);
    }
  }

  /** Two sequences that agree up to place k and hold a smaller element of `a`
      at place k order `a` first, whatever the element order. */
  lemma {:induction false} LexFirstDifference<T>(a: seq<T>, b: seq<T>, k: nat, less: (T, T) -> bool)
    requires k < |a| && k < |b| && a[..k] == b[..k] && less(a[k], b[k])
    ensures LexicographicalCompare(a, b, less)
    decreases k
  {
    if k == 0 {
      assert less(a[0], b[0]);
    } else {
      assert a[0] == b[0];
      assert a[1..][..k - 1] == b[1..][..k - 1];
      LexFirstDifference(a[1..], b[1..], k - 1, less);
    }
  }

  /** With a strict total order on elements, exactly one of a < b, a == b and
      b < a holds. */
  lemma {:induction false} LexTrichotomy<T(!new)>(a: seq<T>, b: seq<T>, less: (T, T) -> bool)
    requires StrictTotalOrder(less)
    ensures LexicographicalCompare(a, b, less) || a == b || LexicographicalCompare(b, a, less)
    ensures !(LexicographicalCompare(a, b, less) && LexicographicalCompare(b, a, less))
    ensures a == b ==> !LexicographicalCompare(a, b, less)
    decreases |a|
  {
    LexAsymmetric(a, b, less);
    LexIrreflexive(a, less);
    if |a| > 0 && |b| > 0 && !less(a[0], b[0]) && !less(b[0], a[0]) {
      assert a[0] == b[0];
      LexTrichotomy(a[1..], b[1..], less);
      if a[1..] == b[1..] {
        assert a == [a[0]] + a[1..] && b == [b[0]] + b[1..];
      }
    }
  }

  /** The examples [1, 2] < [1, 2, 3] < [1, 3] over integers. */
  lemma IntegerExamples()
    ensures LexicographicalCompare([1, 2], [1, 2, 3], (x: int, y: int) => x < y)
    ensures LexicographicalCompare([1, 2, 3], [1, 3], (x: int, y: int) => x < y)
    ensures !LexicographicalCompare([1, 3], [1, 2, 3], (x: int, y: int) => x < y)
  {
  }
}
