/**
 * `reconciliar_clusters_misto` as the source writes it: nested loops over the
 * two clusterings, a greedy covering loop with a break, and the merge pass
 * that retypes entries in place. Each method is proved equal to the step
 * functions of MixedSpec.
 */
module MixedReconciler {
  import opened Wrappers
  import opened Clusters
  import opened MixedSpec
  import Similarity
  import Ordering

  /** The inner loop of the matrix: the new clusters meeting `a`, with the pair metrics. */
  method MatrixRow<T>(a: set<T>, after: Clustering<string, T>) returns (row: seq<Candidate>)
    requires WellFormed(after)
    ensures row == Candidates(a, after)
  {
    row := [];
    var j: nat := 0;
    while j < |after.order|
      invariant 0 <= j <= |after.order|
      invariant row == CandidatesUpTo(a, after, j)
    {
      var l := after.order[j];
      var b := after.sets[l];
      var inter := a * b;
      if inter != {} {
        row := row + [Candidate(l, Metrics(|inter|, Similarity.Jaccard(a, b), Similarity.Overlap(a, b), |a|, |b|))];
      }
      j := j + 1;
    }
  }

  /** `intersec_matrix`: one row per old cluster. */
  method Matrix<T>(before: Clustering<int, T>, after: Clustering<string, T>) returns (matrix: map<int, seq<Candidate>>)
    requires WellFormed(before) && WellFormed(after)
    ensures forall k | k in before.sets :: k in matrix && matrix[k] == Candidates(before.sets[k], after)
  {
    matrix := map[];
    var i: nat := 0;
    while i < |before.order|
      invariant 0 <= i <= |before.order|
      invariant forall j | 0 <= j < i :: before.order[j] in matrix
      invariant forall k | k in matrix :: k in before.sets && matrix[k] == Candidates(before.sets[k], after)
    {
      var k := before.order[i];
      var row := MatrixRow(before.sets[k], after);
      matrix := matrix[k := row];
      i := i + 1;
    }
    forall k | k in before.sets ensures k in matrix {
      var j :| 0 <= j < |before.order| && before.order[j] == k;
    }
  }

  lemma CoverStays<T>(a: set<T>, after: Clustering<string, T>, order: seq<Candidate>, minCoverage: real, i: nat, n: nat)
    requires CoverArgs(a, after, order) && i <= n <= |order|
    requires CoverUpTo(a, after, order, minCoverage, i).stopped
    ensures CoverUpTo(a, after, order, minCoverage, n) == CoverUpTo(a, after, order, minCoverage, i)
  {
    var j: nat := i;
    while j < n
      invariant i <= j <= n
      invariant CoverUpTo(a, after, order, minCoverage, j) == CoverUpTo(a, after, order, minCoverage, i)
    {
      StoppedStays(a, after.sets[order[j].target], CoverUpTo(a, after, order, minCoverage, j), order[j].target, minCoverage);
      j := j + 1;
    }
  }

  /** A loop that has stopped takes no more turns. */
  lemma StoppedStays<T>(a: set<T>, b: set<T>, st: Cover<T>, l: string, minCoverage: real)
    requires a != {} && st.stopped
    ensures CoverStep(a, b, st, l, minCoverage) == st
  {
  }

  /** Turn `i` of the covering loop, from a state that has not stopped. */
  lemma CoverTurn<T>(a: set<T>, after: Clustering<string, T>, order: seq<Candidate>, minCoverage: real, i: nat, st: Cover<T>)
    requires CoverArgs(a, after, order) && i < |order|
    requires CoverUpTo(a, after, order, minCoverage, i) == st && !st.stopped
    ensures var l := order[i].target;
      var gained := after.sets[l] * a - st.covered;
      CoverUpTo(a, after, order, minCoverage, i + 1) ==
        if gained == {} then st
        else Cover(st.covered + gained, st.used + [l], Similarity.Ratio(|st.covered + gained|, |a|),
                   Similarity.Ratio(|st.covered + gained|, |a|) >= minCoverage)
  {
  }

  /** One turn of the covering loop: candidate `i` joins when it adds items, and the loop stops once coverage is reached. */
  method CoverCandidate<T>(a: set<T>, after: Clustering<string, T>, order: seq<Candidate>, minCoverage: real, i: nat,
                           covered: set<T>, used: seq<string>, coverage: real)
      returns (covered': set<T>, used': seq<string>, coverage': real, stop: bool)
    requires CoverArgs(a, after, order) && i < |order|
    requires CoverUpTo(a, after, order, minCoverage, i) == Cover(covered, used, coverage, false)
    ensures CoverUpTo(a, after, order, minCoverage, i + 1) == Cover(covered', used', coverage', stop)
  {
    CoverTurn(a, after, order, minCoverage, i, Cover(covered, used, coverage, false));
    covered', used', coverage', stop := covered, used, coverage, false;
    var l := order[i].target;
    var gained := after.sets[l] * a - covered;
    if gained != {} {
      covered' := covered + gained;
      coverage' := Similarity.Ratio(|covered'|, |a|);
      used' := used + [l];
      stop := coverage' >= minCoverage;
    }
  }

  /** The greedy covering loop of the split test, with its early break. */
  method GreedyCover<T>(a: set<T>, after: Clustering<string, T>, cs: seq<Candidate>, minCoverage: real)
      returns (coverage: real, used: seq<string>)
    requires WellFormed(after) && a != {} && LabelsKnown(cs, after)
    ensures var st := SplitCover(a, after, cs, minCoverage);
      coverage == st.coverage && used == st.used
  {
    var order := SplitOrder(cs);
    SplitOrderKnown(cs, after);
    coverage, used := 0.0, [];
    var covered: set<T> := {};
    var i: nat := 0;
    while i < |order|
      invariant 0 <= i <= |order|
      invariant CoverUpTo(a, after, order, minCoverage, i) == Cover(covered, used, coverage, false)
    {
      var stop;
      covered, used, coverage, stop := CoverCandidate(a, after, order, minCoverage, i, covered, used, coverage);
      if stop {
        CoverStays(a, after, order, minCoverage, i + 1, |order|);
        return;
      }
      i := i + 1;
    }
  }

  /** The tiers for one old cluster with at least one candidate. */
  method ClassifyCluster<T>(a: set<T>, after: Clustering<string, T>, cs: seq<Candidate>, th: Thresholds) returns (e: Option<Entry>)
    requires WellFormed(after) && a != {} && cs != [] && LabelsKnown(cs, after)
    ensures e == Classify(a, after, cs, th)
  {
    var best := cs[Best(cs)];
    var ov := best.metrics.overlap;
    var jacc := best.metrics.jaccard;
    var kind: Option<Kind> := None;
    var dest := Single(best.target);
    if ov >= th.overlapGrowth && jacc >= th.jaccardMin {
      kind := Some(Evolution);
    } else if ov >= th.overlapGrowth && jacc >= th.jaccardGrowth {
      kind := Some(Growth);
    } else {
      if ov < th.overlapSplitMax {
        var coverage, used := GreedyCover(a, after, cs, th.splitCoverageMin);
        if coverage >= th.splitCoverageMin && |used| > 1 {
          kind := Some(Split);
          dest := Several(used);
        }
      }
      if kind.None? && ov >= th.overlapChangeMin && jacc >= th.jaccardGrowth {
        kind := Some(DrasticChange);
      }
    }
    if kind.Some? {
      e := Some(Entry(dest, if dest.Single? then Some(jacc) else None, if dest.Single? then Some(ov) else None, kind.value));
    } else {
      e := None;
    }
  }

  /** The classification loop over the old clusters, in order. */
  method ClassifyAll<T>(before: Clustering<int, T>, after: Clustering<string, T>, th: Thresholds, matrix: map<int, seq<Candidate>>)
      returns (m: Mapping, classified: set<int>)
    requires WellFormed(before) && WellFormed(after)
    requires forall k | k in before.sets :: k in matrix && matrix[k] == Candidates(before.sets[k], after)
    ensures m == ClassifyUpTo(before, after, th, |before.order|)
    ensures classified == m.entries.Keys
  {
    m := Mapping([], map[]);
    classified := {};
    var i: nat := 0;
    while i < |before.order|
      invariant 0 <= i <= |before.order|
      invariant m == ClassifyUpTo(before, after, th, i)
      invariant classified == m.entries.Keys
    {
      var k := before.order[i];
      var cs := matrix[k];
      CandidatesFacts(before.sets[k], after);
      if cs != [] {
        var e := ClassifyCluster(before.sets[k], after, cs, th);
        if e.Some? {
          m := Put(m, k, e.value);
          classified := classified + {k};
        }
      }
      i := i + 1;
    }
  }

  /** `ids_destinos`: every label an entry points to. */
  method DestinationSet(m: Mapping) returns (dests: set<string>)
    requires MappingOk(m)
    ensures dests == Destinations(m)
  {
    dests := {};
    var i: nat := 0;
    while i < |m.order|
      invariant 0 <= i <= |m.order|
      invariant dests == DestinationsUpTo(m, i)
    {
      match m.entries[m.order[i]].dest {
        case Several(ls) => dests := dests + set l | l in ls;
        case Single(l) => dests := dests + {l};
      }
      i := i + 1;
    }
  }

  /** The inner loop of the inverse index: old id `k` joins the list of each of its candidates. */
  method AddRow(inv0: Inverse, k: int, cs: seq<Candidate>) returns (inv: Inverse)
    requires InverseShape(inv0)
    ensures inv == AddRowUpTo(inv0, k, cs, |cs|)
  {
    inv := inv0;
    var j: nat := 0;
    while j < |cs|
      invariant 0 <= j <= |cs|
      invariant inv == AddRowUpTo(inv0, k, cs, j)
    {
      var l := cs[j].target;
      var c := Contribution(k, cs[j].metrics);
      // defaultdict(list): a label seen for the first time starts an empty list
      var list := if l in inv.lists then inv.lists[l] else [];
      var order := if l in inv.lists then inv.order else inv.order + [l];
      inv := Inverse(order, inv.lists[l := list + [c]]);
      j := j + 1;
    }
  }

  /** `novo_para_antigos`, built from the matrix in old-cluster order. */
  method InverseIndex<T>(before: Clustering<int, T>, after: Clustering<string, T>, matrix: map<int, seq<Candidate>>)
      returns (inv: Inverse)
    requires WellFormed(before) && WellFormed(after)
    requires forall k | k in before.sets :: k in matrix && matrix[k] == Candidates(before.sets[k], after)
    ensures inv == InverseUpTo(before, after, |before.order|)
  {
    inv := Inverse([], map[]);
    var i: nat := 0;
    while i < |before.order|
      invariant 0 <= i <= |before.order|
      invariant inv == InverseUpTo(before, after, i)
    {
      var k := before.order[i];
      inv := AddRow(inv, k, matrix[k]);
      i := i + 1;
    }
  }

  /** `cobertura_set`: the part of new cluster `b` the merge candidates cover. */
  method CoveredSet<T>(before: Clustering<int, T>, b: set<T>, q: seq<Contribution>) returns (covered: set<T>)
    requires IdsKnown(before, q)
    ensures covered == CoveredUpTo(before, b, q, |q|)
  {
    covered := {};
    var t: nat := 0;
    while t < |q|
      invariant 0 <= t <= |q|
      invariant covered == CoveredUpTo(before, b, q, t)
    {
      covered := covered + before.sets[q[t].id] * b;
      t := t + 1;
    }
  }

  /** Marks the contributors of a fusion into label `l`, in place. */
  method Retype(m: Mapping, ids: seq<int>, l: string) returns (r: Mapping)
    requires MappingOk(m)
    ensures r == RetypeUpTo(m, ids, l, |ids|)
  {
    r := m;
    var t: nat := 0;
    while t < |ids|
      invariant 0 <= t <= |ids|
      invariant r == RetypeUpTo(m, ids, l, t)
    {
      var k := ids[t];
      if k in r.entries && r.entries[k].kind in {DrasticChange, Growth} {
        r := Put(r, k, r.entries[k].(kind := MergedInto, dest := Single(l)));
      } else if k !in r.entries {
        r := Put(r, k, Entry(Single(l), None, None, MergedInto));
      }
      t := t + 1;
    }
  }

  /** The merge pass over the labels of the inverse index. */
  method MergePass<T>(before: Clustering<int, T>, after: Clustering<string, T>, th: Thresholds, inv: Inverse, start: Mapping)
      returns (m: Mapping, fusions: seq<Fusion>)
    requires InverseOk(before, after, inv) && MappingOk(start)
    ensures MergeState(m, fusions) == MergeUpTo(before, after, th, inv, MergeState(start, []), |inv.order|)
  {
    m, fusions := start, [];
    var n: nat := 0;
    while n < |inv.order|
      invariant 0 <= n <= |inv.order|
      invariant MergeState(m, fusions) == MergeUpTo(before, after, th, inv, MergeState(start, []), n)
    {
      var l := inv.order[n];
      var q := MergeCandidates(inv, l, th);
      MergeCandidatesKnown(before, after, inv, l, th);
      if |q| >= 2 {
        var b := after.sets[l];
        var covered := CoveredSet(before, b, q);
        var coverage := if b != {} then Similarity.Ratio(|covered|, |b|) else 0.0;
        if coverage >= th.mergeCoverageMin {
          var ids := Ids(q);
          fusions := fusions + [Fusion(l, ids, Round3(coverage))];
          m := Retype(m, ids, l);
        }
      }
      n := n + 1;
    }
  }

  /** `reconciliar_clusters_misto`. */
  method ReconcileMixed<T>(before: Clustering<int, T>, after: Clustering<string, T>, th: Thresholds) returns (out: Outcome)
    requires WellFormed(before) && WellFormed(after)
    ensures out == Reconcile(before, after, th)
  {
    if before.order == [] {
      return Outcome(Mapping([], map[]), after.order, [], []);
    }
    var matrix := Matrix(before, after);
    var classifiedMap, classified := ClassifyAll(before, after, th, matrix);
    var gone := Ordering.Sort(Unclassified(before.order, classifiedMap), Ordering.IntLess);
    var dests := DestinationSet(classifiedMap);
    var unmatched := Ordering.Sort(Unmatched(after.order, dests), Ordering.StrLess);
    var inv := InverseIndex(before, after, matrix);
    InverseUpToOk(before, after, |before.order|);
    var m, fusions := MergePass(before, after, th, inv, classifiedMap);
    out := Outcome(m, unmatched, gone, fusions);
  }
}
