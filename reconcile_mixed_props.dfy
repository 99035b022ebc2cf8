/**
 * What the mixed reconciliation promises, proved about the step functions of
 * MixedSpec (and so, through ReconcileMixed's postcondition, about the method).
 */
module MixedProperties {
  import opened Wrappers
  import opened Clusters
  import opened MixedSpec
  import Similarity
  import Ordering

  // ---------------------------------------------------------------------------
  // The intersection matrix
  // ---------------------------------------------------------------------------

  predicate HasTarget(cs: seq<Candidate>, l: string) {
    exists i :: 0 <= i < |cs| && cs[i].target == l
  }

  predicate DistinctTargets(cs: seq<Candidate>) {
    forall i, j :: 0 <= i < j < |cs| ==> cs[i].target != cs[j].target
  }

  lemma {:induction false} CandidatesUpToExact<T>(a: set<T>, after: Clustering<string, T>, n: nat)
    requires WellFormed(after) && n <= |after.order|
    ensures DistinctTargets(CandidatesUpTo(a, after, n))
    ensures forall l :: HasTarget(CandidatesUpTo(a, after, n), l) <==> l in after.order[..n] && a * after.sets[l] != {}
  {
    if n > 0 {
      CandidatesUpToExact(a, after, n - 1);
      CandidatesTargetsStep(a, after, n);
      CandidatesDistinctStep(a, after, n);
    }
  }

  /** The new cluster `n - 1` becomes a target exactly when it meets `a`. */
  lemma CandidatesTargetsStep<T>(a: set<T>, after: Clustering<string, T>, n: nat)
    requires WellFormed(after) && 0 < n <= |after.order|
    requires forall l :: HasTarget(CandidatesUpTo(a, after, n - 1), l) <==> l in after.order[..n - 1] && a * after.sets[l] != {}
    ensures forall l :: HasTarget(CandidatesUpTo(a, after, n), l) <==> l in after.order[..n] && a * after.sets[l] != {}
  {
    var row := CandidatesUpTo(a, after, n - 1);
    var l := after.order[n - 1];
    var r := CandidatesUpTo(a, after, n);
    assert after.order[..n] == after.order[..n - 1] + [l];
    forall l' ensures HasTarget(r, l') <==> l' in after.order[..n] && a * after.sets[l'] != {} {
      if HasTarget(r, l') {
        var i :| 0 <= i < |r| && r[i].target == l';
        if i < |row| { assert row[i] == r[i]; assert HasTarget(row, l'); }
      }
      if l' in after.order[..n] && a * after.sets[l'] != {} {
        if l' == l {
          assert r[|r| - 1].target == l';
        } else {
          assert l' in after.order[..n - 1];
          var i :| 0 <= i < |row| && row[i].target == l';
          assert r[i] == row[i];
        }
      }
    }
  }

  /** The new cluster `n - 1` is not yet a target, so the targets stay distinct. */
  lemma CandidatesDistinctStep<T>(a: set<T>, after: Clustering<string, T>, n: nat)
    requires WellFormed(after) && 0 < n <= |after.order|
    requires DistinctTargets(CandidatesUpTo(a, after, n - 1))
    requires forall l :: HasTarget(CandidatesUpTo(a, after, n - 1), l) <==> l in after.order[..n - 1] && a * after.sets[l] != {}
    ensures DistinctTargets(CandidatesUpTo(a, after, n))
  {
    var row := CandidatesUpTo(a, after, n - 1);
    var l := after.order[n - 1];
    if a * after.sets[l] != {} {
      forall i | 0 <= i < |row| ensures row[i].target != l {
        assert HasTarget(row, row[i].target);
        var j :| 0 <= j < n - 1 && after.order[j] == row[i].target;
      }
      var r := CandidatesUpTo(a, after, n);
      assert r == row + [Candidate(l, MetricsOf(a, after.sets[l]))];
      forall i, j | 0 <= i < j < |r| ensures r[i].target != r[j].target {
        assert r[i] == row[i];
        if j < |row| { assert r[j] == row[j]; }
      }
    }
  }

  /** The row of an old cluster names, once each, exactly the new clusters it meets. */
  lemma CandidatesExact<T>(a: set<T>, after: Clustering<string, T>)
    requires WellFormed(after)
    ensures DistinctTargets(Candidates(a, after))
    ensures forall l :: HasTarget(Candidates(a, after), l) <==> l in after.sets && a * after.sets[l] != {}
  {
    CandidatesUpToExact(a, after, |after.order|);
    assert after.order[..|after.order|] == after.order;
  }

  // ---------------------------------------------------------------------------
  // Best candidate and tiers
  // ---------------------------------------------------------------------------

  lemma {:induction false} BestUpToFirstMax(cs: seq<Candidate>, n: nat)
    requires 1 <= n <= |cs|
    ensures forall j :: 0 <= j < n ==> !RanksBelow(cs[BestUpTo(cs, n)].metrics, cs[j].metrics)
    ensures forall j :: 0 <= j < BestUpTo(cs, n) ==> RanksBelow(cs[j].metrics, cs[BestUpTo(cs, n)].metrics)
  {
    if n > 1 {
      BestUpToFirstMax(cs, n - 1);
    }
  }

  /**
   * The best candidate is the first one of maximal (overlap, jaccard,
   * inter_size): no candidate ranks above it and every earlier one ranks below.
   */
  lemma BestIsFirstMax(cs: seq<Candidate>)
    requires cs != []
    ensures forall j :: 0 <= j < |cs| ==> !RanksBelow(cs[Best(cs)].metrics, cs[j].metrics)
    ensures forall j :: 0 <= j < Best(cs) ==> RanksBelow(cs[j].metrics, cs[Best(cs)].metrics)
  {
    BestUpToFirstMax(cs, |cs|);
  }

  /** The label the tiers are tried on. */
  function BestLabel<T>(a: set<T>, after: Clustering<string, T>): string
    requires WellFormed(after) && Candidates(a, after) != []
  {
    var cs := Candidates(a, after);
    cs[Best(cs)].target
  }

  /** The best candidate's record holds the Jaccard index and overlap of the pair. */
  lemma BestMetrics<T>(a: set<T>, after: Clustering<string, T>)
    requires WellFormed(after) && Candidates(a, after) != []
    ensures a != {}
    ensures var cs := Candidates(a, after); var l := cs[Best(cs)].target;
      && cs[Best(cs)].metrics.jaccard == Similarity.Jaccard(a, after.sets[l])
      && cs[Best(cs)].metrics.overlap == Similarity.Overlap(a, after.sets[l])
  {
    CandidatesFacts(a, after);
    CandidatesMetrics(a, after);
    var cs := Candidates(a, after);
    assert cs[Best(cs)].metrics == MetricsOf(a, after.sets[cs[Best(cs)].target]);
  }

  /**
   * The first tier that holds on the best label decides; single destinations
   * carry the Jaccard index and overlap of the pair, a split carries neither.
   */
  lemma VerdictTiers<T>(a: set<T>, after: Clustering<string, T>, th: Thresholds)
    requires WellFormed(after) && Candidates(a, after) != []
    ensures
      var l := BestLabel(a, after);
      var jacc := Similarity.Jaccard(a, after.sets[l]);
      var ov := Similarity.Overlap(a, after.sets[l]);
      var v := Verdict(a, after, th);
      var evolution := ov >= th.overlapGrowth && jacc >= th.jaccardMin;
      var growth := ov >= th.overlapGrowth && jacc >= th.jaccardGrowth;
      var split := !evolution && !growth && ov < th.overlapSplitMax && SplitTest(a, after, Candidates(a, after), th).Some?;
      var change := ov >= th.overlapChangeMin && jacc >= th.jaccardGrowth;
      && (evolution ==> v == Some(Entry(Single(l), Some(jacc), Some(ov), Evolution)))
      && (!evolution && growth ==> v == Some(Entry(Single(l), Some(jacc), Some(ov), Growth)))
      && (split ==> v == Some(Entry(Several(SplitTest(a, after, Candidates(a, after), th).value), None, None, Split)))
      && (!evolution && !growth && !split && change ==> v == Some(Entry(Single(l), Some(jacc), Some(ov), DrasticChange)))
      && (!evolution && !growth && !split && !change ==> v == None)
  {
    BestMetrics(a, after);
    CandidatesFacts(a, after);
    var cs := Candidates(a, after);
    assert Verdict(a, after, th) == Classify(a, after, cs, th);
    var best := cs[Best(cs)];
    var ov := best.metrics.overlap;
    var jacc := best.metrics.jaccard;
    if !(ov >= th.overlapGrowth && jacc >= th.jaccardMin) && !(ov >= th.overlapGrowth && jacc >= th.jaccardGrowth) {
      var split := if ov < th.overlapSplitMax then SplitTest(a, after, cs, th) else None;
      if split.Some? {
        assert Classify(a, after, cs, th) == Some(Entry(Several(split.value), None, None, Split));
      } else if ov >= th.overlapChangeMin && jacc >= th.jaccardGrowth {
        assert Classify(a, after, cs, th) == Some(Entry(Single(best.target), Some(jacc), Some(ov), DrasticChange));
      } else {
        assert Classify(a, after, cs, th) == None;
      }
    }
  }

  lemma {:induction false} CandidatesUpToNone<T>(a: set<T>, after: Clustering<string, T>, n: nat)
    requires WellFormed(after) && n <= |after.order|
    requires forall l | l in after.sets :: a * after.sets[l] == {}
    ensures CandidatesUpTo(a, after, n) == []
  {
    if n > 0 {
      CandidatesUpToNone(a, after, n - 1);
    }
  }

  /** An old cluster meeting no new cluster gets no verdict. */
  lemma NoCandidateNoVerdict<T>(a: set<T>, after: Clustering<string, T>, th: Thresholds)
    requires WellFormed(after) && forall l | l in after.sets :: a * after.sets[l] == {}
    ensures Verdict(a, after, th) == None
  {
    CandidatesUpToNone(a, after, |after.order|);
  }

  /** A verdict never has the merge tag: that one is given by the merge pass only. */
  lemma VerdictNotMerged<T>(a: set<T>, after: Clustering<string, T>, th: Thresholds)
    requires WellFormed(after)
    ensures Verdict(a, after, th).Some? ==> Verdict(a, after, th).value.kind != MergedInto
  {
  }

  // ---------------------------------------------------------------------------
  // The classification loop
  // ---------------------------------------------------------------------------

  lemma {:induction false} ClassifyUpToEntries<T>(before: Clustering<int, T>, after: Clustering<string, T>, th: Thresholds, n: nat, k: int)
    requires WellFormed(before) && WellFormed(after) && n <= |before.order|
    ensures k in ClassifyUpTo(before, after, th, n).entries <==>
      k in before.order[..n] && Verdict(before.sets[k], after, th).Some?
    ensures k in ClassifyUpTo(before, after, th, n).entries ==>
      ClassifyUpTo(before, after, th, n).entries[k] == Verdict(before.sets[k], after, th).value
  {
    if n > 0 {
      ClassifyUpToEntries(before, after, th, n - 1, k);
      var last := before.order[n - 1];
      assert before.order[..n] == before.order[..n - 1] + [last];
      assert forall j :: 0 <= j < n - 1 ==> before.order[j] != last;
      assert last !in before.order[..n - 1];
      var prev := ClassifyUpTo(before, after, th, n - 1);
      var v := Verdict(before.sets[last], after, th);
      if v.None? {
        assert ClassifyUpTo(before, after, th, n) == prev;
      } else {
        assert ClassifyUpTo(before, after, th, n) == Put(prev, last, v.value);
      }
    }
  }

  /** The classified entries are exactly the old clusters with a verdict, each with its verdict. */
  lemma ClassifiedExactly<T>(before: Clustering<int, T>, after: Clustering<string, T>, th: Thresholds, k: int)
    requires WellFormed(before) && WellFormed(after)
    ensures var c := ClassifyUpTo(before, after, th, |before.order|);
      && (k in c.entries <==> k in before.sets && Verdict(before.sets[k], after, th).Some?)
      && (k in c.entries ==> c.entries[k] == Verdict(before.sets[k], after, th).value)
  {
    ClassifyUpToEntries(before, after, th, |before.order|, k);
    assert before.order[..|before.order|] == before.order;
  }

  // ---------------------------------------------------------------------------
  // Disappeared ids and new labels
  // ---------------------------------------------------------------------------

  lemma {:induction false} UnclassifiedDistinct(ids: seq<int>, m: Mapping)
    requires Ordering.Distinct(ids)
    ensures Ordering.Distinct(Unclassified(ids, m))
  {
    if ids != [] {
      UnclassifiedDistinct(ids[1..], m);
      assert ids[0] !in ids[1..] by {
        forall j | 0 <= j < |ids[1..]| ensures ids[1..][j] != ids[0] {
          assert ids[1..][j] == ids[j + 1];
        }
      }
    }
  }

  lemma {:induction false} UnmatchedDistinct(labels: seq<string>, dests: set<string>)
    requires Ordering.Distinct(labels)
    ensures Ordering.Distinct(Unmatched(labels, dests))
  {
    if labels != [] {
      UnmatchedDistinct(labels[1..], dests);
      assert labels[0] !in labels[1..] by {
        forall j | 0 <= j < |labels[1..]| ensures labels[1..][j] != labels[0] {
          assert labels[1..][j] == labels[j + 1];
        }
      }
    }
  }

  /** Sorting a repetition-free list gives the same elements, strictly ascending. */
  lemma SortedElements<T(!new)>(s: seq<T>, less: (T, T) -> bool)
    requires Ordering.IsStrictTotalOrder(less) && Ordering.Distinct(s)
    ensures Ordering.StrictlySorted(Ordering.Sort(s, less), less)
    ensures forall x :: x in Ordering.Sort(s, less) <==> x in s
  {
    Ordering.SortSorted(s, less);
    forall x ensures x in Ordering.Sort(s, less) <==> x in s {
      assert x in Ordering.Sort(s, less) <==> x in multiset(Ordering.Sort(s, less));
    }
  }

  /** When old clusters exist, the disappeared list is the sorted list of old ids without a verdict. */
  lemma DisappearedExactly<T>(before: Clustering<int, T>, after: Clustering<string, T>, th: Thresholds)
    requires WellFormed(before) && WellFormed(after) && before.order != []
    ensures Ordering.StrictlySorted(Reconcile(before, after, th).disappeared, Ordering.IntLess)
    ensures forall k :: k in Reconcile(before, after, th).disappeared <==>
      k in before.sets && Verdict(before.sets[k], after, th).None?
  {
    var c := ClassifyUpTo(before, after, th, |before.order|);
    UnclassifiedDistinct(before.order, c);
    Ordering.IntLessIsOrder();
    SortedElements(Unclassified(before.order, c), Ordering.IntLess);
    forall k ensures k in Reconcile(before, after, th).disappeared <==> k in before.sets && Verdict(before.sets[k], after, th).None? {
      ClassifiedExactly(before, after, th, k);
    }
  }

  /** `l` is some entry's destination: the label of a single one, or one of a split's labels. */
  predicate PointsTo(m: Mapping, l: string) {
    exists k :: k in m.entries && l in DestLabels(m.entries[k].dest)
  }

  lemma {:induction false} DestinationsUpToExact(m: Mapping, n: nat, l: string)
    requires MappingOk(m) && n <= |m.order|
    ensures l in DestinationsUpTo(m, n) <==> exists i :: 0 <= i < n && l in DestLabels(m.entries[m.order[i]].dest)
  {
    if n > 0 {
      DestinationsUpToExact(m, n - 1, l);
    }
  }

  lemma DestinationsExact(m: Mapping, l: string)
    requires MappingOk(m)
    ensures l in Destinations(m) <==> PointsTo(m, l)
  {
    DestinationsUpToExact(m, |m.order|, l);
    if l in Destinations(m) {
      var i :| 0 <= i < |m.order| && l in DestLabels(m.entries[m.order[i]].dest);
      var k := m.order[i];
      assert k in m.entries && l in DestLabels(m.entries[k].dest);
      assert PointsTo(m, l);
    }
    if PointsTo(m, l) {
      var k :| k in m.entries && l in DestLabels(m.entries[k].dest);
      var i :| 0 <= i < |m.order| && m.order[i] == k;
      assert l in DestLabels(m.entries[m.order[i]].dest);
      assert l in DestinationsUpTo(m, |m.order|);
    }
  }

  /**
   * When old clusters exist, the new labels are the sorted labels that no
   * classified entry points to, whether as a single destination or in a split.
   */
  lemma NewLabelsExactly<T>(before: Clustering<int, T>, after: Clustering<string, T>, th: Thresholds)
    requires WellFormed(before) && WellFormed(after) && before.order != []
    ensures Ordering.StrictlySorted(Reconcile(before, after, th).newLabels, Ordering.StrLess)
    ensures forall l :: l in Reconcile(before, after, th).newLabels <==>
      l in after.sets && !PointsTo(ClassifyUpTo(before, after, th, |before.order|), l)
  {
    var c := ClassifyUpTo(before, after, th, |before.order|);
    UnmatchedDistinct(after.order, Destinations(c));
    Ordering.StrLessIsOrder();
    SortedElements(Unmatched(after.order, Destinations(c)), Ordering.StrLess);
    forall l ensures l in Reconcile(before, after, th).newLabels <==> l in after.sets && !PointsTo(c, l) {
      DestinationsExact(c, l);
    }
  }

  // ---------------------------------------------------------------------------
  // The split test
  // ---------------------------------------------------------------------------

  /** The part of `a` covered by the clusters of the labels in `used`. */
  function CoveredBy<T>(a: set<T>, after: Clustering<string, T>, used: seq<string>): set<T>
    requires forall i :: 0 <= i < |used| ==> used[i] in after.sets
  {
    if used == [] then {} else CoveredBy(a, after, used[..|used| - 1]) + after.sets[used[|used| - 1]] * a
  }

  function Targets(order: seq<Candidate>): set<string> {
    set j | 0 <= j < |order| :: order[j].target
  }

  /** What the greedy loop keeps: each label used adds at least one item and coverage is |covered| / |a|. */
  predicate CoverInvariant<T>(a: set<T>, after: Clustering<string, T>, order: seq<Candidate>, st: Cover<T>, minCoverage: real)
    requires a != {}
  {
    && (forall i :: 0 <= i < |st.used| ==> st.used[i] in after.sets && st.used[i] in Targets(order))
    && Ordering.Distinct(st.used)
    && st.covered == CoveredBy(a, after, st.used)
    && st.covered <= a
    && |st.used| <= |st.covered|
    && st.coverage == (if st.used == [] then 0.0 else Similarity.Ratio(|st.covered|, |a|))
    && (st.stopped <==> st.used != [] && st.coverage >= minCoverage)
    && (forall p :: 0 < p < |st.used| ==> Similarity.Ratio(|CoveredBy(a, after, st.used[..p])|, |a|) < minCoverage)
  }

  lemma {:induction false} CoveredByGrows<T>(a: set<T>, after: Clustering<string, T>, used: seq<string>, l: string)
    requires forall i :: 0 <= i < |used| ==> used[i] in after.sets
    requires l in after.sets
    ensures CoveredBy(a, after, used + [l]) == CoveredBy(a, after, used) + after.sets[l] * a
  {
    assert (used + [l])[..|used|] == used;
  }

  lemma CoverStepInvariant<T>(a: set<T>, after: Clustering<string, T>, order: seq<Candidate>, st: Cover<T>, l: string, minCoverage: real)
    requires a != {} && CoverInvariant(a, after, order, st, minCoverage)
    requires l in after.sets && l in Targets(order)
    ensures CoverInvariant(a, after, order, CoverStep(a, after.sets[l], st, l, minCoverage), minCoverage)
  {
    if !st.stopped && after.sets[l] * a - st.covered != {} {
      CoverGrows(a, after, order, st, l, minCoverage);
    }
  }

  /** A label that adds items keeps the invariant. */
  lemma CoverGrows<T>(a: set<T>, after: Clustering<string, T>, order: seq<Candidate>, st: Cover<T>, l: string, minCoverage: real)
    requires a != {} && CoverInvariant(a, after, order, st, minCoverage)
    requires l in after.sets && l in Targets(order)
    requires !st.stopped && after.sets[l] * a - st.covered != {}
    ensures CoverInvariant(a, after, order, CoverStep(a, after.sets[l], st, l, minCoverage), minCoverage)
  {
    var gained := after.sets[l] * a - st.covered;
    var r := CoverStep(a, after.sets[l], st, l, minCoverage);
    assert r.used == st.used + [l] && r.covered == st.covered + gained;
    assert l !in st.used by {
      forall i | 0 <= i < |st.used| ensures st.used[i] != l {
        CoveredByHas(a, after, st.used, i);
      }
    }
    CoveredByGrows(a, after, st.used, l);
    assert |r.covered| == |st.covered| + |gained| by {
      assert st.covered * gained == {};
    }
    Similarity.SubsetSize(r.covered, a);
    PrefixesBelow(a, after, st.used, l, minCoverage);
    DistinctSnoc(st.used, l);
  }

  /** Every proper prefix of `used + [l]` stays below the coverage when `used` itself does. */
  lemma PrefixesBelow<T>(a: set<T>, after: Clustering<string, T>, used: seq<string>, l: string, minCoverage: real)
    requires a != {} && l in after.sets
    requires forall i :: 0 <= i < |used| ==> used[i] in after.sets
    requires forall p :: 0 < p < |used| ==> Similarity.Ratio(|CoveredBy(a, after, used[..p])|, |a|) < minCoverage
    requires used != [] ==> Similarity.Ratio(|CoveredBy(a, after, used)|, |a|) < minCoverage
    ensures forall p :: 0 < p < |used + [l]| ==> Similarity.Ratio(|CoveredBy(a, after, (used + [l])[..p])|, |a|) < minCoverage
  {
    var r := used + [l];
    forall p | 0 < p < |r| ensures Similarity.Ratio(|CoveredBy(a, after, r[..p])|, |a|) < minCoverage {
      if p < |used| {
        assert r[..p] == used[..p];
      } else {
        assert r[..p] == used;
      }
    }
  }

  lemma DistinctSnoc<X>(s: seq<X>, x: X)
    requires Ordering.Distinct(s) && x !in s
    ensures Ordering.Distinct(s + [x])
  {
    var r := s + [x];
    forall i, j | 0 <= i < j < |r| ensures r[i] != r[j] {
      assert r[i] == s[i];
      if j < |s| {
        assert r[j] == s[j];
      }
    }
  }

  lemma {:induction false} CoverUpToInvariant<T>(a: set<T>, after: Clustering<string, T>, order: seq<Candidate>, minCoverage: real, n: nat)
    requires WellFormed(after) && a != {} && n <= |order| && LabelsKnown(order, after)
    ensures CoverInvariant(a, after, order, CoverUpTo(a, after, order, minCoverage, n), minCoverage)
  {
    if n > 0 {
      CoverUpToInvariant(a, after, order, minCoverage, n - 1);
      var l := order[n - 1].target;
      assert l in Targets(order);
      CoverStepInvariant(a, after, order, CoverUpTo(a, after, order, minCoverage, n - 1), l, minCoverage);
    }
  }

  lemma {:induction false} CoveredByHas<T>(a: set<T>, after: Clustering<string, T>, used: seq<string>, i: nat)
    requires forall j :: 0 <= j < |used| ==> used[j] in after.sets
    requires i < |used|
    ensures after.sets[used[i]] * a <= CoveredBy(a, after, used)
  {
    if i < |used| - 1 {
      var init := used[..|used| - 1];
      assert init[i] == used[i];
      CoveredByHas(a, after, init, i);
    }
  }

  /** Every candidate of `order` names a new cluster and records the size of its intersection with `a`. */
  predicate InterRecorded<T>(a: set<T>, after: Clustering<string, T>, order: seq<Candidate>) {
    forall k :: 0 <= k < |order| ==>
      order[k].target in after.sets && order[k].metrics.interSize == |a * after.sets[order[k].target]|
  }

  /** Every label used names a new cluster. */
  predicate UsedKnown<T>(after: Clustering<string, T>, used: seq<string>) {
    forall i :: 0 <= i < |used| ==> used[i] in after.sets
  }

  /** The labels used come by non-increasing intersection with `a`. */
  predicate Descending<T>(a: set<T>, after: Clustering<string, T>, used: seq<string>)
    requires UsedKnown(after, used)
  {
    forall i, j :: 0 <= i < j < |used| ==> |a * after.sets[used[i]]| >= |a * after.sets[used[j]]|
  }

  /** No label used has a smaller intersection with `a` than a candidate from index `n` on. */
  predicate AboveRest<T>(a: set<T>, after: Clustering<string, T>, order: seq<Candidate>, used: seq<string>, n: nat)
    requires UsedKnown(after, used)
  {
    forall i, m :: 0 <= i < |used| && n <= m < |order| ==> |a * after.sets[used[i]]| as real >= InterKey(order[m])
  }

  /** Each label used covers an item of `a` that the labels before it did not. */
  predicate EachAdds<T>(a: set<T>, after: Clustering<string, T>, used: seq<string>)
    requires UsedKnown(after, used)
  {
    forall p :: 0 <= p < |used| ==> a * after.sets[used[p]] - CoveredBy(a, after, used[..p]) != {}
  }

  /** A label no larger than every candidate still to come keeps the used labels descending. */
  lemma DescendingSnoc<T>(a: set<T>, after: Clustering<string, T>, order: seq<Candidate>, used: seq<string>, n: nat, l: string)
    requires UsedKnown(after, used) && l in after.sets && n < |order|
    requires Descending(a, after, used) && AboveRest(a, after, order, used, n)
    requires InterKey(order[n]) == |a * after.sets[l]| as real
    ensures UsedKnown(after, used + [l]) && Descending(a, after, used + [l])
  {
    var r := used + [l];
    forall i, j | 0 <= i < j < |r| ensures |a * after.sets[r[i]]| >= |a * after.sets[r[j]]| {
      assert r[i] == used[i];
      if j < |used| {
        assert r[j] == used[j];
      }
    }
  }

  /** Taking candidate `n` keeps every label used above the candidates after it. */
  lemma AboveRestSnoc<T>(a: set<T>, after: Clustering<string, T>, order: seq<Candidate>, used: seq<string>, n: nat, l: string)
    requires UsedKnown(after, used) && l in after.sets && n < |order|
    requires AboveRest(a, after, order, used, n) && Ordering.NonIncreasing(order, InterKey)
    requires InterKey(order[n]) == |a * after.sets[l]| as real
    ensures UsedKnown(after, used + [l]) && AboveRest(a, after, order, used + [l], n + 1)
  {
    var r := used + [l];
    forall i, m | 0 <= i < |r| && n + 1 <= m < |order| ensures |a * after.sets[r[i]]| as real >= InterKey(order[m]) {
      if i < |used| {
        assert r[i] == used[i];
      } else {
        assert InterKey(order[n]) >= InterKey(order[m]);
      }
    }
  }

  /** A label that covers something new keeps every label used adding an item. */
  lemma EachAddsSnoc<T>(a: set<T>, after: Clustering<string, T>, used: seq<string>, l: string)
    requires UsedKnown(after, used) && l in after.sets
    requires EachAdds(a, after, used) && a * after.sets[l] - CoveredBy(a, after, used) != {}
    ensures UsedKnown(after, used + [l]) && EachAdds(a, after, used + [l])
  {
    var r := used + [l];
    forall p | 0 <= p < |r| ensures a * after.sets[r[p]] - CoveredBy(a, after, r[..p]) != {} {
      if p < |used| {
        assert r[p] == used[p] && r[..p] == used[..p];
      } else {
        assert r[..p] == used;
      }
    }
  }

  /** A turn of the covering loop either keeps the labels used or appends its label, which then covers something new. */
  lemma CoverStepUsed<T>(a: set<T>, b: set<T>, st: Cover<T>, l: string, minCoverage: real)
    requires a != {}
    ensures var r := CoverStep(a, b, st, l, minCoverage);
      r.used == st.used || (r.used == st.used + [l] && b * a - st.covered != {})
  {
  }

  /** After `n` candidates the loop's labels are known and its covered set is what they cover. */
  lemma CoverUpToCovered<T>(a: set<T>, after: Clustering<string, T>, order: seq<Candidate>, minCoverage: real, n: nat)
    requires WellFormed(after) && a != {} && n <= |order| && LabelsKnown(order, after)
    ensures var st := CoverUpTo(a, after, order, minCoverage, n);
      UsedKnown(after, st.used) && st.covered == CoveredBy(a, after, st.used)
  {
    CoverUpToInvariant(a, after, order, minCoverage, n);
  }

  /** The loop's labels after `n` candidates are the greedy choice. */
  predicate GreedyAt<T>(a: set<T>, after: Clustering<string, T>, order: seq<Candidate>, minCoverage: real, n: nat)
    requires CoverArgs(a, after, order) && n <= |order|
  {
    var used := CoverUpTo(a, after, order, minCoverage, n).used;
    UsedKnown(after, used) && Descending(a, after, used) && AboveRest(a, after, order, used, n) && EachAdds(a, after, used)
  }

  /** One more candidate keeps the greedy choice. */
  lemma GreedyStep<T>(a: set<T>, after: Clustering<string, T>, order: seq<Candidate>, minCoverage: real, n: nat)
    requires WellFormed(after) && a != {} && n < |order|
    requires InterRecorded(a, after, order) && Ordering.NonIncreasing(order, InterKey)
    requires GreedyAt(a, after, order, minCoverage, n)
    ensures GreedyAt(a, after, order, minCoverage, n + 1)
  {
    CoverUpToCovered(a, after, order, minCoverage, n);
    var st := CoverUpTo(a, after, order, minCoverage, n);
    var l := order[n].target;
    assert l in after.sets && InterKey(order[n]) == |a * after.sets[l]| as real;
    CoverStepUsed(a, after.sets[l], st, l, minCoverage);
    var r := CoverUpTo(a, after, order, minCoverage, n + 1);
    assert r == CoverStep(a, after.sets[l], st, l, minCoverage);
    if r.used != st.used {
      DescendingSnoc(a, after, order, st.used, n, l);
      AboveRestSnoc(a, after, order, st.used, n, l);
      EachAddsSnoc(a, after, st.used, l);
    }
  }

  /** The covering loop makes the greedy choice at every step. */
  lemma {:induction false} GreedyUpTo<T>(a: set<T>, after: Clustering<string, T>, order: seq<Candidate>, minCoverage: real, n: nat)
    requires WellFormed(after) && a != {} && n <= |order|
    requires InterRecorded(a, after, order) && Ordering.NonIncreasing(order, InterKey)
    ensures GreedyAt(a, after, order, minCoverage, n)
  {
    if n > 0 {
      GreedyUpTo(a, after, order, minCoverage, n - 1);
      GreedyStep(a, after, order, minCoverage, n - 1);
    }
  }

  /** The labels of a declared split are the greedy choice from the split order. */
  lemma SplitGreedy<T>(a: set<T>, after: Clustering<string, T>, th: Thresholds)
    requires WellFormed(after) && a != {}
    requires SplitTest(a, after, Candidates(a, after), th).Some?
    ensures var ls := SplitTest(a, after, Candidates(a, after), th).value;
      && UsedKnown(after, ls)
      && (forall i, j :: 0 <= i < j < |ls| ==> |a * after.sets[ls[i]]| >= |a * after.sets[ls[j]]|)
      && (forall p :: 0 <= p < |ls| ==> a * after.sets[ls[p]] - CoveredBy(a, after, ls[..p]) != {})
  {
    var cs := Candidates(a, after);
    CandidatesFacts(a, after);
    SplitOrderKnown(cs, after);
    var order := SplitOrder(cs);
    SplitOrderRecorded(a, after);
    GreedyUpTo(a, after, order, th.splitCoverageMin, |order|);
    assert CoverUpTo(a, after, order, th.splitCoverageMin, |order|) == SplitCover(a, after, cs, th.splitCoverageMin);
  }

  /** The split order is sorted by intersection size, which every candidate in it records. */
  lemma SplitOrderRecorded<T>(a: set<T>, after: Clustering<string, T>)
    requires WellFormed(after)
    ensures InterRecorded(a, after, SplitOrder(Candidates(a, after)))
    ensures Ordering.NonIncreasing(SplitOrder(Candidates(a, after)), InterKey)
  {
    var cs := Candidates(a, after);
    var order := SplitOrder(cs);
    Ordering.SortDescSorted(cs, InterKey);
    CandidatesUpToMetrics(a, after, |after.order|);
    forall k | 0 <= k < |order|
      ensures order[k].target in after.sets && order[k].metrics.interSize == |a * after.sets[order[k].target]|
    {
      assert order[k] in multiset(order);
      assert order[k] in cs;
      var j :| 0 <= j < |cs| && cs[j] == order[k];
    }
  }

  /**
   * A declared split names more than one label, each once, each a new cluster
   * meeting the old one, and together they cover at least the split coverage
   * of the old cluster while no shorter prefix of them does. They are the
   * greedy choice: by non-increasing intersection with the old cluster, each
   * covering an item the ones before it did not.
   */
  lemma SplitCovers<T>(a: set<T>, after: Clustering<string, T>, th: Thresholds)
    requires WellFormed(after) && a != {}
    requires SplitTest(a, after, Candidates(a, after), th).Some?
    ensures var ls := SplitTest(a, after, Candidates(a, after), th).value;
      && |ls| > 1
      && Ordering.Distinct(ls)
      && (forall i :: 0 <= i < |ls| ==> ls[i] in after.sets && a * after.sets[ls[i]] != {})
      && CoveredBy(a, after, ls) <= a
      && Similarity.Ratio(|CoveredBy(a, after, ls)|, |a|) >= th.splitCoverageMin
      && (forall p :: 0 < p < |ls| ==> Similarity.Ratio(|CoveredBy(a, after, ls[..p])|, |a|) < th.splitCoverageMin)
      && (forall i, j :: 0 <= i < j < |ls| ==> |a * after.sets[ls[i]]| >= |a * after.sets[ls[j]]|)
      && (forall p :: 0 <= p < |ls| ==> a * after.sets[ls[p]] - CoveredBy(a, after, ls[..p]) != {})
  {
    var cs := Candidates(a, after);
    CandidatesFacts(a, after);
    CandidatesExact(a, after);
    SplitOrderKnown(cs, after);
    var order := SplitOrder(cs);
    SplitGreedy(a, after, th);
    CoverUpToInvariant(a, after, order, th.splitCoverageMin, |order|);
    var st := CoverUpTo(a, after, order, th.splitCoverageMin, |order|);
    assert st == SplitCover(a, after, cs, th.splitCoverageMin);
    OrderTargetsMeet(a, after, cs);
  }

  /** Every label of the split order is a candidate, so it meets `a`. */
  lemma OrderTargetsMeet<T>(a: set<T>, after: Clustering<string, T>, cs: seq<Candidate>)
    requires WellFormed(after) && LabelsKnown(cs, after)
    requires forall l :: HasTarget(cs, l) <==> l in after.sets && a * after.sets[l] != {}
    ensures forall l :: l in Targets(SplitOrder(cs)) ==> l in after.sets && a * after.sets[l] != {}
  {
    var order := SplitOrder(cs);
    Ordering.SortDescSorted(cs, InterKey);
    forall l | l in Targets(order) ensures l in after.sets && a * after.sets[l] != {} {
      var j :| 0 <= j < |order| && order[j].target == l;
      assert order[j] in multiset(order);
      assert order[j] in cs;
      var k :| 0 <= k < |cs| && cs[k] == order[j];
      assert HasTarget(cs, l);
    }
  }
}
