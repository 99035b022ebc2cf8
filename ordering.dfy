/**
 * Python's `sorted`: ascending order of distinct keys (`sorted(set)`), and the
 * stable descending sort by a numeric key (`sorted(..., key=k, reverse=True)`).
 */
module Ordering {

  /** Python's `<` on str: lexicographic comparison of code points. */
  predicate StrLess(a: string, b: string)
    decreases |a|
  {
    if |a| == 0 then |b| > 0
    else if |b| == 0 then false
    else if a[0] != b[0] then a[0] < b[0]
    else StrLess(a[1..], b[1..])
  }

  predicate IntLess(a: int, b: int) { a < b }

  lemma {:induction false} StrLessIrreflexive(a: string)
    ensures !StrLess(a, a)
  {
    if |a| > 0 { StrLessIrreflexive(a[1..]); }
  }

  lemma {:induction false} StrLessTransitive(a: string, b: string, c: string)
    requires StrLess(a, b) && StrLess(b, c)
    ensures StrLess(a, c)
    decreases |a|
  {
    if |a| > 0 && |b| > 0 && |c| > 0 && a[0] == b[0] && b[0] == c[0] {
      StrLessTransitive(a[1..], b[1..], c[1..]);
    }
  }

  lemma {:induction false} StrLessTotal(a: string, b: string)
    requires a != b
    ensures StrLess(a, b) || StrLess(b, a)
    decreases |a|
  {
    if |a| > 0 && |b| > 0 && a[0] == b[0] {
      assert a == [a[0]] + a[1..] && b == [b[0]] + b[1..];
      StrLessTotal(a[1..], b[1..]);
    }
  }

  /** `less` is irreflexive, transitive and total: a strict total order on T. */
  ghost predicate IsStrictTotalOrder<T(!new)>(less: (T, T) -> bool) {
    && (forall a :: !less(a, a))
    && (forall a, b, c :: less(a, b) && less(b, c) ==> less(a, c))
    && (forall a, b :: a != b ==> less(a, b) || less(b, a))
  }

  lemma StrLessIsOrder()
    ensures IsStrictTotalOrder(StrLess)
  {
    forall a: string { StrLessIrreflexive(a); }
    forall a: string, b: string, c: string | StrLess(a, b) && StrLess(b, c) ensures StrLess(a, c) {
      StrLessTransitive(a, b, c);
    }
    forall a: string, b: string | a != b ensures StrLess(a, b) || StrLess(b, a) {
      StrLessTotal(a, b);
    }
  }

  lemma IntLessIsOrder()
    ensures IsStrictTotalOrder(IntLess)
  {
  }

  /** Strictly ascending, hence free of repetitions. */
  predicate StrictlySorted<T>(s: seq<T>, less: (T, T) -> bool) {
    forall i, j :: 0 <= i < j < |s| ==> less(s[i], s[j])
  }

  predicate Distinct<T(==)>(s: seq<T>) {
    forall i, j :: 0 <= i < j < |s| ==> s[i] != s[j]
  }

  /** Inserts `x` in front of the first element that is not below it. */
  function Insert<T>(x: T, s: seq<T>, less: (T, T) -> bool): seq<T> {
    if s == [] then [x]
    else if less(s[0], x) then [s[0]] + Insert(x, s[1..], less)
    else [x] + s
  }

  /** Python's `sorted(xs)` on distinct elements (insertion sort). */
  function Sort<T>(s: seq<T>, less: (T, T) -> bool): seq<T> {
    if s == [] then [] else Insert(s[0], Sort(s[1..], less), less)
  }

  lemma {:induction false} InsertSorted<T(!new)>(x: T, s: seq<T>, less: (T, T) -> bool)
    requires IsStrictTotalOrder(less) && StrictlySorted(s, less) && x !in s
    ensures StrictlySorted(Insert(x, s, less), less)
    ensures multiset(Insert(x, s, less)) == multiset(s) + multiset{x}
  {
    if s != [] {
      if less(s[0], x) {
        assert StrictlySorted(s[1..], less);
        InsertSorted(x, s[1..], less);
        var r := Insert(x, s[1..], less);
        assert s == [s[0]] + s[1..];
        forall k | 0 <= k < |r| ensures less(s[0], r[k]) {
          assert r[k] in multiset(s[1..]) + multiset{x};
          assert r[k] in s[1..] || r[k] == x;
        }
      } else {
        assert less(x, s[0]);
      }
    }
  }

  /**
   * Sorting distinct elements gives the strictly ascending sequence of the
   * same elements.
   */
  lemma {:induction false} SortSorted<T(!new)>(s: seq<T>, less: (T, T) -> bool)
    requires IsStrictTotalOrder(less) && Distinct(s)
    ensures StrictlySorted(Sort(s, less), less)
    ensures multiset(Sort(s, less)) == multiset(s)
  {
    if s != [] {
      assert Distinct(s[1..]);
      SortSorted(s[1..], less);
      assert s == [s[0]] + s[1..];
      assert s[0] !in multiset(s[1..]);
      InsertSorted(s[0], Sort(s[1..], less), less);
    }
  }

  /** Two strictly ascending sequences with the same elements are equal. */
  lemma {:induction false} SortedUnique<T(!new)>(a: seq<T>, b: seq<T>, less: (T, T) -> bool)
    requires IsStrictTotalOrder(less) && StrictlySorted(a, less) && StrictlySorted(b, less)
    requires forall x :: x in a <==> x in b
    ensures a == b
  {
    if a != [] && b != [] {
      assert a[0] in b && b[0] in a;
      assert a[0] == b[0];
      forall x ensures x in a[1..] <==> x in b[1..] {
        if x in a[1..] {
          var i :| 0 <= i < |a| - 1 && a[1..][i] == x;
          assert a[i + 1] == x && x in a && x in b;
          assert less(a[0], x);
          var k :| 0 <= k < |b| && b[k] == x;
          assert k != 0;
          assert b[1..][k - 1] == x;
        }
        if x in b[1..] {
          var i :| 0 <= i < |b| - 1 && b[1..][i] == x;
          assert b[i + 1] == x && x in b && x in a;
          assert less(b[0], x);
          var k :| 0 <= k < |a| && a[k] == x;
          assert k != 0;
          assert a[1..][k - 1] == x;
        }
      }
      assert StrictlySorted(a[1..], less) && StrictlySorted(b[1..], less);
      SortedUnique(a[1..], b[1..], less);
      assert a == [a[0]] + a[1..] && b == [b[0]] + b[1..];
    } else if a != [] {
      HeadIn(a);
      assert false;
    } else if b != [] {
      HeadIn(b);
      assert false;
    }
  }

  lemma HeadIn<T>(s: seq<T>)
    requires |s| > 0
    ensures s[0] in s
  {
  }

  /** `sorted(set(xs))` does not depend on the order in which the set is listed. */
  lemma {:induction false} SortOrderIndependent<T(!new)>(s: seq<T>, t: seq<T>, less: (T, T) -> bool)
    requires IsStrictTotalOrder(less) && Distinct(s) && Distinct(t)
    requires forall x :: x in s <==> x in t
    ensures Sort(s, less) == Sort(t, less)
  {
    SortSorted(s, less);
    SortSorted(t, less);
    forall x ensures x in Sort(s, less) <==> x in Sort(t, less) {
      assert x in Sort(s, less) <==> x in multiset(Sort(s, less));
      assert x in Sort(t, less) <==> x in multiset(Sort(t, less));
      assert x in s <==> x in multiset(s);
      assert x in t <==> x in multiset(t);
    }
    SortedUnique(Sort(s, less), Sort(t, less), less);
  }

  /**
   * Stable insertion behind every element with a strictly greater key, so
   * that an element inserted earlier stays ahead of later ones with an
   * equal key.
   */
  function InsertDesc<X>(x: X, s: seq<X>, key: X -> real): seq<X> {
    if s == [] then [x]
    else if key(s[0]) > key(x) then [s[0]] + InsertDesc(x, s[1..], key)
    else [x] + s
  }

  /** Python's `sorted(s, key=key, reverse=True)`, which keeps equal keys in input order. */
  function SortDesc<X>(s: seq<X>, key: X -> real): seq<X> {
    if s == [] then [] else InsertDesc(s[0], SortDesc(s[1..], key), key)
  }

  predicate NonIncreasing<X>(s: seq<X>, key: X -> real) {
    forall i, j :: 0 <= i < j < |s| ==> key(s[i]) >= key(s[j])
  }

  lemma {:induction false} InsertDescPermutes<X>(x: X, s: seq<X>, key: X -> real)
    ensures multiset(InsertDesc(x, s, key)) == multiset(s) + multiset{x}
  {
    if s != [] && key(s[0]) > key(x) {
      InsertDescPermutes(x, s[1..], key);
      assert s == [s[0]] + s[1..];
    }
  }

  /** Inserting a key no larger than `bound` into keys no larger than `bound` keeps them so. */
  lemma {:induction false} InsertDescBounded<X>(x: X, s: seq<X>, key: X -> real, bound: real)
    requires key(x) <= bound && forall i :: 0 <= i < |s| ==> key(s[i]) <= bound
    ensures forall i :: 0 <= i < |InsertDesc(x, s, key)| ==> key(InsertDesc(x, s, key)[i]) <= bound
  {
    if s != [] && key(s[0]) > key(x) {
      InsertDescBounded(x, s[1..], key, bound);
    }
  }

  lemma {:induction false} InsertDescSorted<X>(x: X, s: seq<X>, key: X -> real)
    requires NonIncreasing(s, key)
    ensures NonIncreasing(InsertDesc(x, s, key), key)
  {
    if s != [] && key(s[0]) > key(x) {
      var t := s[1..];
      assert NonIncreasing(t, key);
      InsertDescSorted(x, t, key);
      InsertDescBounded(x, t, key, key(s[0]));
      var r := InsertDesc(x, t, key);
      assert InsertDesc(x, s, key) == [s[0]] + r;
    }
  }

  /** The descending sort orders by key and is a permutation of its input. */
  lemma {:induction false} SortDescSorted<X>(s: seq<X>, key: X -> real)
    ensures NonIncreasing(SortDesc(s, key), key)
    ensures multiset(SortDesc(s, key)) == multiset(s)
  {
    if s != [] {
      SortDescSorted(s[1..], key);
      InsertDescSorted(s[0], SortDesc(s[1..], key), key);
      InsertDescPermutes(s[0], SortDesc(s[1..], key), key);
      assert s == [s[0]] + s[1..];
    }
  }
}
