/**
 * The two similarity measures between an old and a new cluster: the Jaccard
 * index and the overlap (Szymkiewicz-Simpson) coefficient, as exact reals.
 */
module Similarity {

  function Ratio(num: nat, den: nat): real
    requires den > 0
  {
    (num as real) / (den as real)
  }

  /** A count over a larger, non-zero count lies in [0, 1]. */
  lemma RatioUnit(num: nat, den: nat)
    requires 0 < den && num <= den
    ensures 0.0 <= Ratio(num, den) <= 1.0
  {
    var d := den as real;
    var r := Ratio(num, den);
    assert r * d == num as real;
  }

  lemma {:induction false} SubsetSize<T>(a: set<T>, b: set<T>)
    requires a <= b
    ensures |a| <= |b|
  {
    assert b == (b - a) + a;
    assert (b - a) * a == {};
  }

  lemma DivideByLarger(i: real, x: real, y: real)
    requires i >= 0.0 && 0.0 < y <= x
    ensures i / x <= i / y
  {
    assert (i / x) * y <= (i / x) * x;
    assert (i / x) * x == i;
    assert (i / y) * y == i;
  }

  lemma {:induction false} SubsetSameSize<T>(a: set<T>, b: set<T>)
    requires a <= b && |a| == |b|
    ensures a == b
  {
    assert |b - a| == |b| - |a|;
    assert b - a == {};
  }

  /**
   * Jaccard index |A ∩ B| / |A ∪ B|; two empty sets have index 1.
   */
  function Jaccard<T>(a: set<T>, b: set<T>): (r: real)
    ensures 0.0 <= r <= 1.0
    ensures a + b == {} ==> r == 1.0
    ensures a + b != {} ==> r == Ratio(|a * b|, |a + b|)
  {
    if a + b == {} then 1.0
    else
      SubsetSize(a * b, a + b);
      RatioUnit(|a * b|, |a + b|);
      Ratio(|a * b|, |a + b|)
  }

  /** The index is 1 exactly for equal sets, and 0 exactly for disjoint sets that are not both empty. */
  lemma {:induction false} JaccardExtremes<T>(a: set<T>, b: set<T>)
    ensures Jaccard(a, b) == 1.0 <==> a == b
    ensures Jaccard(a, b) == 0.0 <==> (a * b == {} && a + b != {})
  {
    if a + b != {} {
      RatioIsOne(|a * b|, |a + b|);
      if |a * b| == |a + b| {
        SubsetSameSize(a * b, a + b);
        assert a <= a * b && b <= a * b;
      }
      if a == b {
        assert a * b == a + b;
      }
      assert |a * b| == 0 <==> a * b == {};
    }
  }

  /**
   * Overlap coefficient |A ∩ B| / min(|A|, |B|); 1 for two empty sets and 0
   * when exactly one of them is empty.
   */
  function Overlap<T>(a: set<T>, b: set<T>): (r: real)
    ensures 0.0 <= r <= 1.0
    ensures a == {} && b == {} ==> r == 1.0
    ensures (a == {}) != (b == {}) ==> r == 0.0
    ensures a != {} && b != {} ==> r == Ratio(|a * b|, if |a| <= |b| then |a| else |b|)
  {
    if a == {} && b == {} then 1.0
    else if a == {} || b == {} then 0.0
    else
      var m := if |a| <= |b| then |a| else |b|;
      SubsetSize(a * b, a);
      SubsetSize(a * b, b);
      RatioUnit(|a * b|, m);
      Ratio(|a * b|, m)
  }

  lemma JaccardSymmetric<T>(a: set<T>, b: set<T>)
    ensures Jaccard(a, b) == Jaccard(b, a)
  {
    assert a * b == b * a && a + b == b + a;
  }

  lemma OverlapSymmetric<T>(a: set<T>, b: set<T>)
    ensures Overlap(a, b) == Overlap(b, a)
  {
    assert a * b == b * a;
  }

  /**
   * The overlap is 1 exactly when one set contains the other, except that one
   * empty and one non-empty set score 0.
   */
  lemma RatioIsOne(num: nat, den: nat)
    requires den > 0
    ensures Ratio(num, den) == 1.0 <==> num == den
  {
    if Ratio(num, den) == 1.0 {
      assert (num as real) == Ratio(num, den) * (den as real);
    }
  }

  lemma {:induction false} OverlapOneIffContained<T>(a: set<T>, b: set<T>)
    ensures Overlap(a, b) == 1.0 <==> ((a <= b || b <= a) && (a == {} <==> b == {}))
  {
    if a != {} && b != {} {
      var m := if |a| <= |b| then |a| else |b|;
      RatioIsOne(|a * b|, m);
      var small, large := if |a| <= |b| then a else b, if |a| <= |b| then b else a;
      assert a * b == small * large;
      if |a * b| == m { SubsetSameSize(small * large, small); assert small <= large; }
      if small <= large { assert small * large == small; }
      if large <= small { SubsetSize(large, small); SubsetSameSize(large, small); }
    }
  }

  /** Jaccard never exceeds the overlap coefficient of two non-empty sets. */
  lemma {:induction false} JaccardAtMostOverlap<T>(a: set<T>, b: set<T>)
    requires a != {} && b != {}
    ensures Jaccard(a, b) <= Overlap(a, b)
  {
    var m := if |a| <= |b| then |a| else |b|;
    assert m <= |a + b| by { SubsetSize(a, a + b); SubsetSize(b, a + b); }
    DivideByLarger(|a * b| as real, |a + b| as real, m as real);
  }
}
