/**
 * The merge pass of the mixed reconciliation: which new clusters get a fusion
 * record, with which contributors and coverage, and how the entries of the
 * contributors are retyped.
 */
module MixedMerge {
  import opened Wrappers
  import opened Clusters
  import opened MixedSpec
  import opened MixedProperties
  import Similarity
  import Ordering

  // ---------------------------------------------------------------------------
  // The inverse index
  // ---------------------------------------------------------------------------

  /** The contributions recorded for label `l` (the defaultdict's empty list when none). */
  function ListOf(inv: Inverse, l: string): seq<Contribution> {
    if l in inv.lists then inv.lists[l] else []
  }

  function FullInverse<T>(before: Clustering<int, T>, after: Clustering<string, T>): (r: Inverse)
    requires WellFormed(before) && WellFormed(after)
    ensures InverseOk(before, after, r)
  {
    InverseUpToOk(before, after, |before.order|);
    InverseUpTo(before, after, |before.order|)
  }

  lemma IdsAppend(s: seq<Contribution>, c: Contribution)
    ensures Ids(s + [c]) == Ids(s) + [c.id]
  {
    var r := Ids(s + [c]);
    forall i | 0 <= i < |r| ensures r[i] == (Ids(s) + [c.id])[i] {
      if i < |s| {
        assert (s + [c])[i] == s[i];
      }
    }
  }

  lemma HasTargetStep(cs: seq<Candidate>, m: nat, l: string)
    requires DistinctTargets(cs) && 0 < m <= |cs|
    ensures HasTarget(cs[..m], l) <==> HasTarget(cs[..m - 1], l) || cs[m - 1].target == l
    ensures cs[m - 1].target == l ==> !HasTarget(cs[..m - 1], l)
  {
    if HasTarget(cs[..m], l) {
      var i :| 0 <= i < m && cs[..m][i].target == l;
      if i < m - 1 {
        assert cs[..m - 1][i] == cs[i];
      }
    }
    if HasTarget(cs[..m - 1], l) {
      var i :| 0 <= i < m - 1 && cs[..m - 1][i].target == l;
      assert cs[..m][i] == cs[i];
    }
    assert cs[..m][m - 1] == cs[m - 1];
  }

  /** After the first `m` candidates of row `k`, the list of `l` holds `k` once more exactly when one of them targets `l`. */
  predicate RowAdded(inv: Inverse, k: int, cs: seq<Candidate>, m: nat, l: string)
    requires InverseShape(inv) && m <= |cs|
  {
    && Ids(ListOf(AddRowUpTo(inv, k, cs, m), l)) == Ids(ListOf(inv, l)) + (if HasTarget(cs[..m], l) then [k] else [])
    && (l in AddRowUpTo(inv, k, cs, m).lists <==> l in inv.lists || HasTarget(cs[..m], l))
  }

  lemma AddRowIds(inv: Inverse, k: int, cs: seq<Candidate>, m: nat, l: string)
    requires InverseShape(inv) && DistinctTargets(cs) && m <= |cs|
    ensures RowAdded(inv, k, cs, m, l)
  {
    RowAddedNone(inv, k, cs, l);
    var j: nat := 0;
    while j < m
      invariant j <= m && RowAdded(inv, k, cs, j, l)
    {
      AddRowIdsStep(inv, k, cs, j + 1, l);
      j := j + 1;
    }
  }

  /** No candidate yet: the index is as it was. */
  lemma RowAddedNone(inv: Inverse, k: int, cs: seq<Candidate>, l: string)
    requires InverseShape(inv)
    ensures RowAdded(inv, k, cs, 0, l)
  {
    assert cs[..0] == [];
  }

  /** Candidate `m - 1` adds `k` to the list of `l` exactly when it targets `l`. */
  lemma AddRowIdsStep(inv: Inverse, k: int, cs: seq<Candidate>, m: nat, l: string)
    requires InverseShape(inv) && DistinctTargets(cs) && 0 < m <= |cs|
    requires RowAdded(inv, k, cs, m - 1, l)
    ensures RowAdded(inv, k, cs, m, l)
  {
    var prev := AddRowUpTo(inv, k, cs, m - 1);
    var t := cs[m - 1].target;
    var c := Contribution(k, cs[m - 1].metrics);
    assert AddRowUpTo(inv, k, cs, m) == AddContribution(prev, t, c);
    HasTargetStep(cs, m, l);
    assert l in AddContribution(prev, t, c).lists <==> l in prev.lists || t == l;
    var base := Ids(ListOf(inv, l));
    if t == l {
      assert !HasTarget(cs[..m - 1], l) && HasTarget(cs[..m], l);
      assert Ids(ListOf(prev, l)) == base;
      assert ListOf(AddContribution(prev, t, c), l) == ListOf(prev, l) + [c];
      IdsAppend(ListOf(prev, l), c);
    } else {
      assert HasTarget(cs[..m - 1], l) == HasTarget(cs[..m], l);
      assert ListOf(AddContribution(prev, t, c), l) == ListOf(prev, l);
    }
  }

  lemma InverseStep(prev: Inverse, k: int, cs: seq<Candidate>, l: string, meets: bool)
    requires InverseShape(prev) && DistinctTargets(cs) && HasTarget(cs, l) == meets
    ensures Ids(ListOf(AddRowUpTo(prev, k, cs, |cs|), l)) == Ids(ListOf(prev, l)) + (if meets then [k] else [])
    ensures l in AddRowUpTo(prev, k, cs, |cs|).lists <==> l in prev.lists || meets
  {
    AddRowIds(prev, k, cs, |cs|, l);
    assert cs[..|cs|] == cs;
  }

  /** One row of the outer loop adds `k` to the list of `l` exactly when old cluster `a` meets `l`. */
  lemma RowIds<T>(prev: Inverse, k: int, a: set<T>, after: Clustering<string, T>, l: string)
    requires InverseShape(prev) && WellFormed(after) && l in after.sets
    ensures Ids(ListOf(AddRowUpTo(prev, k, Candidates(a, after), |Candidates(a, after)|), l)) ==
      Ids(ListOf(prev, l)) + (if a * after.sets[l] != {} then [k] else [])
    ensures l in AddRowUpTo(prev, k, Candidates(a, after), |Candidates(a, after)|).lists <==>
      l in prev.lists || a * after.sets[l] != {}
  {
    CandidatesExact(a, after);
    InverseStep(prev, k, Candidates(a, after), l, a * after.sets[l] != {});
  }

  /** The old ids, in order among the first `n`, whose cluster meets new cluster `l`. */
  function MeetingUpTo<T>(before: Clustering<int, T>, after: Clustering<string, T>, l: string, n: nat): seq<int>
    requires WellFormed(before) && l in after.sets && n <= |before.order|
  {
    if n == 0 then []
    else
      var k := before.order[n - 1];
      MeetingUpTo(before, after, l, n - 1) + (if before.sets[k] * after.sets[l] != {} then [k] else [])
  }

  lemma {:induction false} MeetingFacts<T>(before: Clustering<int, T>, after: Clustering<string, T>, l: string, n: nat)
    requires WellFormed(before) && l in after.sets && n <= |before.order|
    ensures Ordering.Distinct(MeetingUpTo(before, after, l, n))
    ensures forall k :: k in MeetingUpTo(before, after, l, n) <==>
      k in before.sets && k in before.order[..n] && before.sets[k] * after.sets[l] != {}
  {
    if n > 0 {
      MeetingFacts(before, after, l, n - 1);
      var k := before.order[n - 1];
      assert before.order[..n] == before.order[..n - 1] + [k];
      assert forall j :: 0 <= j < n - 1 ==> before.order[j] != k;
      assert k !in before.order[..n - 1];
    }
  }

  /** The list of `l` in `inv` has the ids `m`, and `l` has a list exactly when `m` is not empty. */
  predicate ListIs(inv: Inverse, l: string, m: seq<int>) {
    Ids(ListOf(inv, l)) == m && (l in inv.lists <==> m != [])
  }

  /** The list of label `l` in the inverse index holds exactly the old clusters meeting `l`, in order. */
  lemma InverseIds<T>(before: Clustering<int, T>, after: Clustering<string, T>, l: string, n: nat)
    requires WellFormed(before) && WellFormed(after) && l in after.sets && n <= |before.order|
    ensures ListIs(InverseUpTo(before, after, n), l, MeetingUpTo(before, after, l, n))
  {
    InverseIdsBase(before, after, l);
    var i: nat := 0;
    while i < n
      invariant i <= n
      invariant ListIs(InverseUpTo(before, after, i), l, MeetingUpTo(before, after, l, i))
    {
      i := i + 1;
      InverseIdsStep(before, after, l, i);
    }
  }

  lemma InverseIdsBase<T>(before: Clustering<int, T>, after: Clustering<string, T>, l: string)
    requires WellFormed(before) && WellFormed(after) && l in after.sets
    ensures ListIs(InverseUpTo(before, after, 0), l, MeetingUpTo(before, after, l, 0))
  {
    assert InverseUpTo(before, after, 0) == Inverse([], map[]);
  }

  lemma InverseIdsStep<T>(before: Clustering<int, T>, after: Clustering<string, T>, l: string, n: nat)
    requires WellFormed(before) && WellFormed(after) && l in after.sets && 0 < n <= |before.order|
    ensures ListIs(InverseUpTo(before, after, n - 1), l, MeetingUpTo(before, after, l, n - 1)) ==>
            ListIs(InverseUpTo(before, after, n), l, MeetingUpTo(before, after, l, n))
  {
    var k := before.order[n - 1];
    var prev := InverseUpTo(before, after, n - 1);
    var m := MeetingUpTo(before, after, l, n - 1);
    if ListIs(prev, l, m) {
      RowIds(prev, k, before.sets[k], after, l);
      var x: seq<int> := if before.sets[k] * after.sets[l] != {} then [k] else [];
      assert ListIs(AddRowUpTo(prev, k, Candidates(before.sets[k], after), |Candidates(before.sets[k], after)|), l, m + x);
    }
  }

  // ---------------------------------------------------------------------------
  // Merge candidates
  // ---------------------------------------------------------------------------

  predicate DistinctIds(cs: seq<Contribution>) {
    forall i, j :: 0 <= i < j < |cs| ==> cs[i].id != cs[j].id
  }

  /** Old cluster `k` meets new cluster `l` with at least the merge overlap. */
  predicate Qualifies<T>(before: Clustering<int, T>, after: Clustering<string, T>, th: Thresholds, l: string, k: int)
    requires l in after.sets
  {
    && k in before.sets
    && before.sets[k] * after.sets[l] != {}
    && Similarity.Overlap(before.sets[k], after.sets[l]) >= th.mergeOverlapMin
  }

  lemma {:induction false} DistinctMultiplicity<X>(t: seq<X>)
    requires Ordering.Distinct(t)
    ensures forall x :: multiset(t)[x] <= 1
  {
    if t != [] {
      assert Ordering.Distinct(t[1..]);
      DistinctMultiplicity(t[1..]);
      assert t == [t[0]] + t[1..];
      assert t[0] !in t[1..] by {
        forall j | 0 <= j < |t[1..]| ensures t[1..][j] != t[0] {
          assert t[1..][j] == t[j + 1];
        }
      }
    }
  }

  lemma TwoPositions<X>(s: seq<X>, i: nat, j: nat)
    requires i < j < |s| && s[i] == s[j]
    ensures multiset(s)[s[i]] >= 2
  {
    assert s == s[..j] + [s[j]] + s[j + 1..];
    assert s[..j][i] == s[i];
    assert s[i] in multiset(s[..j]);
  }

  lemma DistinctIdsOfPermutation(s: seq<Contribution>, t: seq<Contribution>)
    requires multiset(s) == multiset(t) && DistinctIds(t)
    ensures DistinctIds(s)
  {
    assert Ordering.Distinct(t) by {
      forall i, j | 0 <= i < j < |t| ensures t[i] != t[j] {
        assert t[i].id != t[j].id;
      }
    }
    DistinctMultiplicity(t);
    forall i, j | 0 <= i < j < |s| ensures s[i].id != s[j].id {
      if s[i] == s[j] {
        TwoPositions(s, i, j);
        assert false;
      } else {
        assert s[i] in multiset(t) && s[j] in multiset(t);
        var p :| 0 <= p < |t| && t[p] == s[i];
        var q :| 0 <= q < |t| && t[q] == s[j];
        if p < q {
          assert t[p].id != t[q].id;
        } else {
          assert t[q].id != t[p].id;
        }
      }
    }
  }

  lemma {:induction false} QualifyingDistinct(s: seq<Contribution>, min: real)
    requires DistinctIds(s)
    ensures DistinctIds(Qualifying(s, min))
  {
    if s != [] {
      assert DistinctIds(s[1..]) by {
        forall i, j | 0 <= i < j < |s[1..]| ensures s[1..][i].id != s[1..][j].id {
          assert s[1..][i] == s[i + 1] && s[1..][j] == s[j + 1];
        }
      }
      QualifyingDistinct(s[1..], min);
      var rest := Qualifying(s[1..], min);
      forall i | 0 <= i < |rest| ensures rest[i].id != s[0].id {
        assert rest[i] in s[1..];
        var j :| 0 <= j < |s[1..]| && s[1..][j] == rest[i];
        assert s[j + 1] == rest[i];
      }
    }
  }

  /**
   * What the merge pass relies on about the list of label `l`: one contribution
   * per old cluster meeting `l`, each with the overlap of the pair.
   */
  predicate ListFacts<T>(before: Clustering<int, T>, after: Clustering<string, T>, l: string, list: seq<Contribution>)
    requires l in after.sets
  {
    && DistinctIds(list)
    && (forall i | 0 <= i < |list| ::
          && list[i].id in before.sets
          && before.sets[list[i].id] * after.sets[l] != {}
          && list[i].metrics.overlap == Similarity.Overlap(before.sets[list[i].id], after.sets[l]))
    && (forall k | k in before.sets && before.sets[k] * after.sets[l] != {} ::
          exists i :: 0 <= i < |list| && list[i].id == k)
  }

  lemma FullListDistinct<T>(before: Clustering<int, T>, after: Clustering<string, T>, l: string)
    requires WellFormed(before) && WellFormed(after) && l in after.sets
    ensures DistinctIds(ListOf(FullInverse(before, after), l))
  {
    var n := |before.order|;
    InverseIds(before, after, l, n);
    MeetingFacts(before, after, l, n);
    var list := ListOf(FullInverse(before, after), l);
    forall i, j | 0 <= i < j < |list| ensures list[i].id != list[j].id {
      assert Ids(list)[i] == list[i].id && Ids(list)[j] == list[j].id;
    }
  }

  lemma FullListSound<T>(before: Clustering<int, T>, after: Clustering<string, T>, l: string)
    requires WellFormed(before) && WellFormed(after) && l in after.sets
    ensures var list := ListOf(FullInverse(before, after), l);
      forall i | 0 <= i < |list| ::
        && list[i].id in before.sets
        && before.sets[list[i].id] * after.sets[l] != {}
        && list[i].metrics.overlap == Similarity.Overlap(before.sets[list[i].id], after.sets[l])
  {
    var inv := FullInverse(before, after);
    InverseUpToOk(before, after, |before.order|);
    assert InverseOk(before, after, inv);
  }

  lemma FullListComplete<T>(before: Clustering<int, T>, after: Clustering<string, T>, l: string)
    requires WellFormed(before) && WellFormed(after) && l in after.sets
    ensures var list := ListOf(FullInverse(before, after), l);
      forall k | k in before.sets && before.sets[k] * after.sets[l] != {} ::
        exists i :: 0 <= i < |list| && list[i].id == k
  {
    var n := |before.order|;
    InverseIds(before, after, l, n);
    MeetingFacts(before, after, l, n);
    assert before.order[..n] == before.order;
    var list := ListOf(FullInverse(before, after), l);
    var meeting := MeetingUpTo(before, after, l, n);
    forall k | k in before.sets && before.sets[k] * after.sets[l] != {}
      ensures exists i :: 0 <= i < |list| && list[i].id == k
    {
      assert k in meeting;
      var j :| 0 <= j < |meeting| && meeting[j] == k;
      assert Ids(list)[j] == list[j].id;
    }
  }

  /** The list of `l` in the full inverse index has the facts the merge pass relies on, and is there when not empty. */
  lemma FullListFacts<T>(before: Clustering<int, T>, after: Clustering<string, T>, l: string)
    requires WellFormed(before) && WellFormed(after) && l in after.sets
    ensures ListFacts(before, after, l, ListOf(FullInverse(before, after), l))
    ensures l in FullInverse(before, after).lists <==> ListOf(FullInverse(before, after), l) != []
  {
    FullListDistinct(before, after, l);
    FullListSound(before, after, l);
    FullListComplete(before, after, l);
    InverseIds(before, after, l, |before.order|);
  }

  /** The qualifying candidates drawn from a list with those facts. */
  lemma {:induction false} CandidatesOfList<T>(before: Clustering<int, T>, after: Clustering<string, T>, th: Thresholds, l: string, list: seq<Contribution>)
    requires l in after.sets && ListFacts(before, after, l, list)
    ensures var q := Qualifying(Ordering.SortDesc(list, OverlapKey), th.mergeOverlapMin);
      && DistinctIds(q)
      && IdsKnown(before, q)
      && (forall k :: (exists i :: 0 <= i < |q| && q[i].id == k) <==> Qualifies(before, after, th, l, k))
  {
    var sorted := Ordering.SortDesc(list, OverlapKey);
    Ordering.SortDescSorted(list, OverlapKey);
    DistinctIdsOfPermutation(sorted, list);
    QualifyingDistinct(sorted, th.mergeOverlapMin);
    QualifyingSound(before, after, th, l, list, sorted);
    QualifyingComplete(before, after, th, l, list, sorted);
  }

  lemma {:induction false} QualifyingSound<T>(before: Clustering<int, T>, after: Clustering<string, T>, th: Thresholds, l: string,
                           list: seq<Contribution>, sorted: seq<Contribution>)
    requires l in after.sets && ListFacts(before, after, l, list) && multiset(sorted) == multiset(list)
    ensures var q := Qualifying(sorted, th.mergeOverlapMin);
      forall i | 0 <= i < |q| :: q[i].id in before.sets && Qualifies(before, after, th, l, q[i].id)
  {
    var q := Qualifying(sorted, th.mergeOverlapMin);
    forall i | 0 <= i < |q| ensures q[i].id in before.sets && Qualifies(before, after, th, l, q[i].id) {
      assert q[i] in sorted;
      assert q[i] in multiset(list);
      var j :| 0 <= j < |list| && list[j] == q[i];
    }
  }

  lemma {:induction false} QualifyingComplete<T>(before: Clustering<int, T>, after: Clustering<string, T>, th: Thresholds, l: string,
                              list: seq<Contribution>, sorted: seq<Contribution>)
    requires l in after.sets && ListFacts(before, after, l, list) && multiset(sorted) == multiset(list)
    ensures forall k | Qualifies(before, after, th, l, k) ::
      exists i :: 0 <= i < |Qualifying(sorted, th.mergeOverlapMin)| && Qualifying(sorted, th.mergeOverlapMin)[i].id == k
  {
    var q := Qualifying(sorted, th.mergeOverlapMin);
    forall k | Qualifies(before, after, th, l, k) ensures exists i :: 0 <= i < |q| && q[i].id == k {
      var j :| 0 <= j < |list| && list[j].id == k;
      var c := list[j];
      assert c in multiset(sorted);
      assert c in sorted;
      assert c in q;
      var i :| 0 <= i < |q| && q[i] == c;
      assert q[i].id == k;
    }
    assert q == Qualifying(sorted, th.mergeOverlapMin);
    assert forall k | Qualifies(before, after, th, l, k) ::
      exists i :: 0 <= i < |Qualifying(sorted, th.mergeOverlapMin)| && Qualifying(sorted, th.mergeOverlapMin)[i].id == k;
  }

  /**
   * The merge candidates of a label are, once each, exactly the old clusters
   * that meet it with at least the merge overlap.
   */
  lemma MergeCandidatesExact<T>(before: Clustering<int, T>, after: Clustering<string, T>, th: Thresholds, l: string)
    requires WellFormed(before) && WellFormed(after) && l in after.sets
    ensures var inv := FullInverse(before, after);
      l in inv.lists ==>
      var q := MergeCandidates(inv, l, th);
      && DistinctIds(q)
      && IdsKnown(before, q)
      && (forall k :: (exists i :: 0 <= i < |q| && q[i].id == k) <==> Qualifies(before, after, th, l, k))
  {
    var inv := FullInverse(before, after);
    if l in inv.lists {
      FullListFacts(before, after, l);
      CandidatesOfList(before, after, th, l, inv.lists[l]);
    }
  }

  // ---------------------------------------------------------------------------
  // Merge coverage
  // ---------------------------------------------------------------------------

  /** The items of new cluster `l` lying in an old cluster that qualifies for the merge. */
  ghost function MergeUnion<T>(before: Clustering<int, T>, after: Clustering<string, T>, th: Thresholds, l: string): set<T>
    requires l in after.sets
  {
    set x | x in after.sets[l] && InQualifier(before, after, th, l, x)
  }

  /** Item `x` lies in some old cluster that qualifies for the merge into `l`. */
  ghost predicate InQualifier<T>(before: Clustering<int, T>, after: Clustering<string, T>, th: Thresholds, l: string, x: T)
    requires l in after.sets
  {
    exists k :: Qualifies(before, after, th, l, k) && x in before.sets[k]
  }

  lemma {:induction false} CoveredUpToIs<T>(before: Clustering<int, T>, b: set<T>, q: seq<Contribution>, n: nat)
    requires n <= |q| && IdsKnown(before, q)
    ensures forall x | x in CoveredUpTo(before, b, q, n) :: x in b && exists i :: 0 <= i < n && x in before.sets[q[i].id]
    ensures forall x, i | 0 <= i < n && x in b && x in before.sets[q[i].id] :: x in CoveredUpTo(before, b, q, n)
  {
    if n > 0 {
      CoveredUpToIs(before, b, q, n - 1);
      var prev := CoveredUpTo(before, b, q, n - 1);
      assert CoveredUpTo(before, b, q, n) == prev + before.sets[q[n - 1].id] * b;
    }
  }

  /** The coverage set of candidates that are exactly the qualifying old clusters is the merge union. */
  lemma {:induction false} CoveredIsMergeUnion<T>(before: Clustering<int, T>, after: Clustering<string, T>, th: Thresholds, l: string, q: seq<Contribution>)
    requires l in after.sets && IdsKnown(before, q)
    requires forall k :: (exists i :: 0 <= i < |q| && q[i].id == k) <==> Qualifies(before, after, th, l, k)
    ensures CoveredUpTo(before, after.sets[l], q, |q|) == MergeUnion(before, after, th, l)
  {
    CoveredInUnion(before, after, th, l, q);
    UnionInCovered(before, after, th, l, q);
  }

  lemma {:induction false} CoveredInUnion<T>(before: Clustering<int, T>, after: Clustering<string, T>, th: Thresholds, l: string, q: seq<Contribution>)
    requires l in after.sets && IdsKnown(before, q)
    requires forall i | 0 <= i < |q| :: Qualifies(before, after, th, l, q[i].id)
    ensures CoveredUpTo(before, after.sets[l], q, |q|) <= MergeUnion(before, after, th, l)
  {
    CoveredUpToIs(before, after.sets[l], q, |q|);
    forall x | x in CoveredUpTo(before, after.sets[l], q, |q|) ensures x in MergeUnion(before, after, th, l) {
      var i :| 0 <= i < |q| && x in before.sets[q[i].id];
      assert Qualifies(before, after, th, l, q[i].id);
      assert InQualifier(before, after, th, l, x);
    }
  }

  lemma {:induction false} UnionInCovered<T>(before: Clustering<int, T>, after: Clustering<string, T>, th: Thresholds, l: string, q: seq<Contribution>)
    requires l in after.sets && IdsKnown(before, q)
    requires forall k | Qualifies(before, after, th, l, k) :: exists i :: 0 <= i < |q| && q[i].id == k
    ensures MergeUnion(before, after, th, l) <= CoveredUpTo(before, after.sets[l], q, |q|)
  {
    CoveredUpToIs(before, after.sets[l], q, |q|);
    forall x | x in MergeUnion(before, after, th, l) ensures x in CoveredUpTo(before, after.sets[l], q, |q|) {
      var k :| Qualifies(before, after, th, l, k) && x in before.sets[k];
      var i :| 0 <= i < |q| && q[i].id == k;
    }
  }

  /** The coverage the merge rule compares: the merge union over the size of the new cluster. */
  lemma MergeCoverageIs<T>(before: Clustering<int, T>, after: Clustering<string, T>, th: Thresholds, l: string)
    requires WellFormed(before) && WellFormed(after) && l in after.sets
    ensures var inv := FullInverse(before, after);
      l in inv.lists ==>
      && after.sets[l] != {}
      && IdsKnown(before, MergeCandidates(inv, l, th))
      && MergeCoverage(before, after.sets[l], MergeCandidates(inv, l, th)) ==
         Similarity.Ratio(|MergeUnion(before, after, th, l)|, |after.sets[l]|)
  {
    var inv := FullInverse(before, after);
    if l in inv.lists {
      FullListFacts(before, after, l);
      var list := inv.lists[l];
      assert list[0] in list;
      assert before.sets[list[0].id] * after.sets[l] != {};
      MergeCandidatesExact(before, after, th, l);
      CoveredIsMergeUnion(before, after, th, l, MergeCandidates(inv, l, th));
    }
  }
}
