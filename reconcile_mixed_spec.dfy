/**
 * The mixed (Jaccard + overlap) reconciliation between the clusters of the
 * previous run (`before`, keyed by persistent integer id) and those of the
 * current run (`after`, keyed by the clusterer's string label), written as
 * functions that follow the loops of the source one step at a time.
 *
 * Outcome: a mapping old id -> entry (destination, metrics, kind), the sorted
 * list of new labels nobody maps to, the sorted list of old ids left
 * unclassified, and the fusion records of the merge pass.
 */
module MixedSpec {
  import opened Wrappers
  import opened Clusters
  import Similarity
  import Ordering

  /** The eight thresholds of the rule set. */
  datatype Thresholds = Thresholds(
    jaccardMin: real,        // stable evolution needs this Jaccard index
    overlapGrowth: real,     // evolution and growth need this overlap
    jaccardGrowth: real,     // growth and drastic change need this Jaccard index
    overlapSplitMax: real,   // a split is only tried below this overlap
    splitCoverageMin: real,  // coverage of the old cluster a split must reach
    overlapChangeMin: real,  // drastic change needs this overlap
    mergeOverlapMin: real,   // overlap of each old cluster taking part in a merge
    mergeCoverageMin: real)  // coverage of the new cluster a merge must reach

  /** The default thresholds of the module. */
  const Defaults := Thresholds(0.7, 0.9, 0.4, 0.6, 0.8, 0.5, 0.5, 0.8)

  /** One cell of the intersection matrix. */
  datatype Metrics = Metrics(interSize: nat, jaccard: real, overlap: real, oldSize: nat, newSize: nat)

  function MetricsOf<T>(a: set<T>, b: set<T>): Metrics {
    Metrics(|a * b|, Similarity.Jaccard(a, b), Similarity.Overlap(a, b), |a|, |b|)
  }

  /** A new label meeting an old cluster, with the metrics of the pair. */
  datatype Candidate = Candidate(target: string, metrics: Metrics)

  /** The classification tags: 'evolucao', 'crescimento', 'divisao', 'mudanca_drastica', 'fundido_em'. */
  datatype Kind = Evolution | Growth | Split | DrasticChange | MergedInto

  /** A destination: one new label, or the list of labels of a split. */
  datatype Dest = Single(target: string) | Several(labels: seq<string>)

  /** `{'novo_id', 'jaccard', 'overlap', 'tipo'}`; the metrics are None on a split or a merge-only entry. */
  datatype Entry = Entry(dest: Dest, jaccard: Option<real>, overlap: Option<real>, kind: Kind)

  /** The dict of entries, with its keys in insertion order. */
  datatype Mapping = Mapping(order: seq<int>, entries: map<int, Entry>)

  /** `{'novo_cluster', 'antigos', 'cobertura'}`. */
  datatype Fusion = Fusion(target: string, contributors: seq<int>, coverage: real)

  datatype Outcome = Outcome(mapping: Mapping, newLabels: seq<string>, disappeared: seq<int>, fusions: seq<Fusion>)

  predicate MappingOk(m: Mapping) {
    && Ordering.Distinct(m.order)
    && (forall k | k in m.entries :: k in m.order)
    && (forall i | 0 <= i < |m.order| :: m.order[i] in m.entries)
  }

  /** `mapping[k] = e`: a new key goes to the end of the order, an existing one keeps its place. */
  function Put(m: Mapping, k: int, e: Entry): (r: Mapping)
    requires MappingOk(m)
    ensures MappingOk(r) && r.entries == m.entries[k := e]
    ensures r.order == if k in m.entries then m.order else m.order + [k]
  {
    if k in m.entries then Mapping(m.order, m.entries[k := e]) else Mapping(m.order + [k], m.entries[k := e])
  }

  // ---------------------------------------------------------------------------
  // Intersection matrix
  // ---------------------------------------------------------------------------

  /** The row of the intersection matrix of old set `a`, over the first `n` new clusters in order. */
  function CandidatesUpTo<T>(a: set<T>, after: Clustering<string, T>, n: nat): (r: seq<Candidate>)
    requires WellFormed(after) && n <= |after.order|
    ensures forall i :: 0 <= i < |r| ==>
      && r[i].target in after.sets
      && a * after.sets[r[i].target] != {}
  {
    if n == 0 then []
    else
      var row := CandidatesUpTo(a, after, n - 1);
      var l := after.order[n - 1];
      if a * after.sets[l] != {} then row + [Candidate(l, MetricsOf(a, after.sets[l]))] else row
  }

  lemma {:induction false} CandidatesUpToMetrics<T>(a: set<T>, after: Clustering<string, T>, n: nat)
    requires WellFormed(after) && n <= |after.order|
    ensures forall i :: 0 <= i < |CandidatesUpTo(a, after, n)| ==>
      CandidatesUpTo(a, after, n)[i].metrics == MetricsOf(a, after.sets[CandidatesUpTo(a, after, n)[i].target])
  {
    if n > 0 {
      CandidatesUpToMetrics(a, after, n - 1);
    }
  }

  function Candidates<T>(a: set<T>, after: Clustering<string, T>): seq<Candidate>
    requires WellFormed(after)
  {
    CandidatesUpTo(a, after, |after.order|)
  }

  predicate LabelsKnown<T>(cs: seq<Candidate>, after: Clustering<string, T>) {
    forall i :: 0 <= i < |cs| ==> cs[i].target in after.sets
  }

  // ---------------------------------------------------------------------------
  // Best candidate
  // ---------------------------------------------------------------------------

  /** `x` sorts strictly below `y` on the key (overlap, jaccard, inter_size). */
  predicate RanksBelow(x: Metrics, y: Metrics) {
    || x.overlap < y.overlap
    || (x.overlap == y.overlap && x.jaccard < y.jaccard)
    || (x.overlap == y.overlap && x.jaccard == y.jaccard && x.interSize < y.interSize)
  }

  /** Index of the first maximum among the first `n` candidates. */
  function BestUpTo(cs: seq<Candidate>, n: nat): (b: nat)
    requires 1 <= n <= |cs|
    ensures b < n
  {
    if n == 1 then 0
    else
      var b := BestUpTo(cs, n - 1);
      if RanksBelow(cs[b].metrics, cs[n - 1].metrics) then n - 1 else b
  }

  /** `ordenados[0]` of the stable descending sort: the first candidate of maximal key. */
  function Best(cs: seq<Candidate>): (b: nat)
    requires cs != []
    ensures b < |cs|
  {
    BestUpTo(cs, |cs|)
  }

  // ---------------------------------------------------------------------------
  // Split test
  // ---------------------------------------------------------------------------

  /** State of the greedy covering loop: covered items, labels used, coverage, and whether it broke off. */
  datatype Cover<T> = Cover(covered: set<T>, used: seq<string>, coverage: real, stopped: bool)

  function InterKey(c: Candidate): real { c.metrics.interSize as real }

  /** The candidates by decreasing intersection size, ties in matrix order. */
  function SplitOrder(cs: seq<Candidate>): seq<Candidate> {
    Ordering.SortDesc(cs, InterKey)
  }

  /** One turn of the greedy covering loop, on candidate label `l`. */
  function CoverStep<T>(a: set<T>, b: set<T>, st: Cover<T>, l: string, minCoverage: real): Cover<T>
    requires a != {}
  {
    if st.stopped then st
    else
      var gained := b * a - st.covered;
      if gained == {} then st
      else
        var covered := st.covered + gained;
        var coverage := Similarity.Ratio(|covered|, |a|);
        Cover(covered, st.used + [l], coverage, coverage >= minCoverage)
  }

  /** What the covering loop works on: a well-formed new clustering, a non-empty old cluster, and candidates naming new clusters. */
  predicate CoverArgs<T>(a: set<T>, after: Clustering<string, T>, order: seq<Candidate>) {
    WellFormed(after) && a != {} && LabelsKnown(order, after)
  }

  /** The greedy covering loop after the first `n` candidates of `order`. */
  function CoverUpTo<T>(a: set<T>, after: Clustering<string, T>, order: seq<Candidate>, minCoverage: real, n: nat): Cover<T>
    requires CoverArgs(a, after, order) && n <= |order|
  {
    if n == 0 then Cover({}, [], 0.0, false)
    else
      var l := order[n - 1].target;
      CoverStep(a, after.sets[l], CoverUpTo(a, after, order, minCoverage, n - 1), l, minCoverage)
  }

  /** The greedy covering loop run over all candidates, largest intersection first. */
  function SplitCover<T>(a: set<T>, after: Clustering<string, T>, cs: seq<Candidate>, minCoverage: real): Cover<T>
    requires WellFormed(after) && a != {} && LabelsKnown(cs, after)
  {
    SplitOrderKnown(cs, after);
    CoverUpTo(a, after, SplitOrder(cs), minCoverage, |cs|)
  }

  /** The labels of a declared split: coverage reached and more than one label used. */
  function SplitTest<T>(a: set<T>, after: Clustering<string, T>, cs: seq<Candidate>, th: Thresholds): Option<seq<string>>
    requires WellFormed(after) && a != {} && LabelsKnown(cs, after)
  {
    var st := SplitCover(a, after, cs, th.splitCoverageMin);
    if st.coverage >= th.splitCoverageMin && |st.used| > 1 then Some(st.used) else None
  }

  lemma SplitOrderKnown<T>(cs: seq<Candidate>, after: Clustering<string, T>)
    requires LabelsKnown(cs, after)
    ensures LabelsKnown(SplitOrder(cs), after) && |SplitOrder(cs)| == |cs|
  {
    Ordering.SortDescSorted(cs, InterKey);
    var s := SplitOrder(cs);
    assert |s| == |multiset(s)| == |multiset(cs)| == |cs|;
    forall i | 0 <= i < |s| ensures s[i].target in after.sets {
      assert s[i] in multiset(s);
      assert s[i] in cs;
    }
  }

  // ---------------------------------------------------------------------------
  // Classification of one old cluster
  // ---------------------------------------------------------------------------

  /** The tiers, tried in order on the best candidate; the first that holds decides. */
  function Classify<T>(a: set<T>, after: Clustering<string, T>, cs: seq<Candidate>, th: Thresholds): Option<Entry>
    requires WellFormed(after) && a != {} && cs != [] && LabelsKnown(cs, after)
  {
    var best := cs[Best(cs)];
    var ov := best.metrics.overlap;
    var jacc := best.metrics.jaccard;
    if ov >= th.overlapGrowth && jacc >= th.jaccardMin then
      Some(Entry(Single(best.target), Some(jacc), Some(ov), Evolution))
    else if ov >= th.overlapGrowth && jacc >= th.jaccardGrowth then
      Some(Entry(Single(best.target), Some(jacc), Some(ov), Growth))
    else
      var split := if ov < th.overlapSplitMax then SplitTest(a, after, cs, th) else None;
      if split.Some? then Some(Entry(Several(split.value), None, None, Split))
      else if ov >= th.overlapChangeMin && jacc >= th.jaccardGrowth then
        Some(Entry(Single(best.target), Some(jacc), Some(ov), DrasticChange))
      else None
  }

  lemma CandidatesFacts<T>(a: set<T>, after: Clustering<string, T>)
    requires WellFormed(after)
    ensures LabelsKnown(Candidates(a, after), after)
    ensures Candidates(a, after) != [] ==> a != {}
  {
    var cs := Candidates(a, after);
    if cs != [] {
      assert a * after.sets[cs[0].target] != {};
    }
  }

  /** Each candidate carries the metrics of its pair. */
  lemma CandidatesMetrics<T>(a: set<T>, after: Clustering<string, T>)
    requires WellFormed(after)
    ensures forall i :: 0 <= i < |Candidates(a, after)| ==>
      Candidates(a, after)[i].metrics == MetricsOf(a, after.sets[Candidates(a, after)[i].target])
  {
    CandidatesUpToMetrics(a, after, |after.order|);
  }

  /** The verdict for one old cluster: none without a candidate, else the tiers. */
  function Verdict<T>(a: set<T>, after: Clustering<string, T>, th: Thresholds): Option<Entry>
    requires WellFormed(after)
  {
    var cs := Candidates(a, after);
    CandidatesFacts(a, after);
    if cs == [] then None else Classify(a, after, cs, th)
  }

  /** The entries of the classification loop after the first `n` old clusters. */
  function ClassifyUpTo<T>(before: Clustering<int, T>, after: Clustering<string, T>, th: Thresholds, n: nat): (m: Mapping)
    requires WellFormed(before) && WellFormed(after) && n <= |before.order|
    ensures MappingOk(m)
  {
    if n == 0 then Mapping([], map[])
    else
      var m := ClassifyUpTo(before, after, th, n - 1);
      var k := before.order[n - 1];
      match Verdict(before.sets[k], after, th)
      case None => m
      case Some(e) => Put(m, k, e)
  }

  // ---------------------------------------------------------------------------
  // New and disappeared lists
  // ---------------------------------------------------------------------------

  function DestLabels(d: Dest): set<string> {
    match d
    case Single(l) => {l}
    case Several(ls) => set l | l in ls
  }

  /** `ids_destinos` after the first `n` entries. */
  function DestinationsUpTo(m: Mapping, n: nat): set<string>
    requires MappingOk(m) && n <= |m.order|
  {
    if n == 0 then {} else DestinationsUpTo(m, n - 1) + DestLabels(m.entries[m.order[n - 1]].dest)
  }

  function Destinations(m: Mapping): set<string>
    requires MappingOk(m)
  {
    DestinationsUpTo(m, |m.order|)
  }

  /** The old ids, in order, that have no entry. */
  function Unclassified(ids: seq<int>, m: Mapping): (r: seq<int>)
    ensures forall x :: x in r <==> x in ids && x !in m.entries
  {
    if ids == [] then []
    else (if ids[0] in m.entries then [] else [ids[0]]) + Unclassified(ids[1..], m)
  }

  /** The labels, in order, that are not destinations. */
  function Unmatched(labels: seq<string>, dests: set<string>): (r: seq<string>)
    ensures forall x :: x in r <==> x in labels && x !in dests
  {
    if labels == [] then []
    else (if labels[0] in dests then [] else [labels[0]]) + Unmatched(labels[1..], dests)
  }

  // ---------------------------------------------------------------------------
  // Merge pass
  // ---------------------------------------------------------------------------

  /** An old cluster contributing to a new label, with the metrics of the pair. */
  datatype Contribution = Contribution(id: int, metrics: Metrics)

  /** `novo_para_antigos`: label -> contributions, labels in first-encounter order. */
  datatype Inverse = Inverse(order: seq<string>, lists: map<string, seq<Contribution>>)

  predicate InverseShape(inv: Inverse) {
    && Ordering.Distinct(inv.order)
    && (forall l | l in inv.lists :: l in inv.order)
    && (forall i | 0 <= i < |inv.order| :: inv.order[i] in inv.lists)
  }

  /** Every contribution of every label is a real, non-empty intersection with its metrics. */
  predicate InverseOk<T>(before: Clustering<int, T>, after: Clustering<string, T>, inv: Inverse) {
    && InverseShape(inv)
    && (forall l | l in inv.lists :: l in after.sets)
    && (forall l, i | l in inv.lists && 0 <= i < |inv.lists[l]| ::
          && inv.lists[l][i].id in before.sets
          && before.sets[inv.lists[l][i].id] * after.sets[l] != {}
          && inv.lists[l][i].metrics == MetricsOf(before.sets[inv.lists[l][i].id], after.sets[l]))
  }

  /** `novo_para_antigos[idn].append((ida, info))`. */
  function AddContribution(inv: Inverse, l: string, c: Contribution): (r: Inverse)
    requires InverseShape(inv)
    ensures InverseShape(r)
    ensures r.lists == inv.lists[l := (if l in inv.lists then inv.lists[l] else []) + [c]]
    ensures r.order == if l in inv.lists then inv.order else inv.order + [l]
  {
    var list := if l in inv.lists then inv.lists[l] else [];
    Inverse(if l in inv.lists then inv.order else inv.order + [l], inv.lists[l := list + [c]])
  }

  /** The inner loop: the first `n` candidates of old id `k`. */
  function AddRowUpTo(inv: Inverse, k: int, cs: seq<Candidate>, n: nat): (r: Inverse)
    requires InverseShape(inv) && n <= |cs|
    ensures InverseShape(r)
  {
    if n == 0 then inv
    else AddContribution(AddRowUpTo(inv, k, cs, n - 1), cs[n - 1].target, Contribution(k, cs[n - 1].metrics))
  }

  /** The outer loop of the inverse index over the first `n` old clusters. */
  function InverseUpTo<T>(before: Clustering<int, T>, after: Clustering<string, T>, n: nat): (r: Inverse)
    requires WellFormed(before) && WellFormed(after) && n <= |before.order|
    ensures InverseShape(r)
  {
    if n == 0 then Inverse([], map[])
    else
      var k := before.order[n - 1];
      var cs := Candidates(before.sets[k], after);
      AddRowUpTo(InverseUpTo(before, after, n - 1), k, cs, |cs|)
  }

  function OverlapKey(c: Contribution): real { c.metrics.overlap }

  /** `[c for c in contribs if c.overlap >= min]`. */
  function Qualifying(cs: seq<Contribution>, min: real): (r: seq<Contribution>)
    ensures forall i :: 0 <= i < |r| ==> r[i] in cs && r[i].metrics.overlap >= min
    ensures forall c :: c in cs && c.metrics.overlap >= min ==> c in r
  {
    if cs == [] then []
    else (if cs[0].metrics.overlap >= min then [cs[0]] else []) + Qualifying(cs[1..], min)
  }

  function Ids(cs: seq<Contribution>): (r: seq<int>)
    ensures |r| == |cs| && forall i :: 0 <= i < |cs| ==> r[i] == cs[i].id
  {
    if cs == [] then [] else [cs[0].id] + Ids(cs[1..])
  }

  predicate IdsKnown<T>(before: Clustering<int, T>, cs: seq<Contribution>) {
    forall i :: 0 <= i < |cs| ==> cs[i].id in before.sets
  }

  /** `cobertura_set` after the first `n` merge candidates. */
  function CoveredUpTo<T>(before: Clustering<int, T>, b: set<T>, cs: seq<Contribution>, n: nat): set<T>
    requires n <= |cs| && IdsKnown(before, cs)
  {
    if n == 0 then {} else CoveredUpTo(before, b, cs, n - 1) + before.sets[cs[n - 1].id] * b
  }

  /** Retyping of the contributors `ids[..n]` to label `l`. */
  function RetypeUpTo(m: Mapping, ids: seq<int>, l: string, n: nat): (r: Mapping)
    requires MappingOk(m) && n <= |ids|
    ensures MappingOk(r)
  {
    if n == 0 then m
    else
      var prev := RetypeUpTo(m, ids, l, n - 1);
      var k := ids[n - 1];
      if k in prev.entries && prev.entries[k].kind in {DrasticChange, Growth} then
        Put(prev, k, prev.entries[k].(kind := MergedInto, dest := Single(l)))
      else if k !in prev.entries then
        Put(prev, k, Entry(Single(l), None, None, MergedInto))
      else prev
  }

  /** `round(x, 3)` with ties to even, on the exact value. */
  function Round3(x: real): (r: real)
    ensures -0.0005 <= r - x <= 0.0005
    ensures (r * 1000.0).Floor as real == r * 1000.0
  {
    var scaled := x * 1000.0;
    var n := scaled.Floor;
    var frac := scaled - n as real;
    var m := if frac > 0.5 || (frac == 0.5 && n % 2 == 1) then n + 1 else n;
    assert (m as real / 1000.0) * 1000.0 == m as real;
    m as real / 1000.0
  }

  datatype MergeState = MergeState(mapping: Mapping, fusions: seq<Fusion>)

  /** The contributors of label `l` that take part in a merge, by decreasing overlap. */
  function MergeCandidates(inv: Inverse, l: string, th: Thresholds): seq<Contribution>
    requires l in inv.lists
  {
    Qualifying(Ordering.SortDesc(inv.lists[l], OverlapKey), th.mergeOverlapMin)
  }

  /** The coverage of new cluster `b` by the merge candidates. */
  function MergeCoverage<T>(before: Clustering<int, T>, b: set<T>, q: seq<Contribution>): real
    requires IdsKnown(before, q)
  {
    var covered := CoveredUpTo(before, b, q, |q|);
    if b != {} then
      Similarity.Ratio(|covered|, |b|)
    else 0.0
  }

  lemma {:induction false} MergeCandidatesKnown<T>(before: Clustering<int, T>, after: Clustering<string, T>, inv: Inverse, l: string, th: Thresholds)
    requires InverseOk(before, after, inv) && l in inv.lists
    ensures IdsKnown(before, MergeCandidates(inv, l, th))
    ensures forall c :: c in MergeCandidates(inv, l, th) ==> c in inv.lists[l]
  {
    var sorted := Ordering.SortDesc(inv.lists[l], OverlapKey);
    Ordering.SortDescSorted(inv.lists[l], OverlapKey);
    var q := MergeCandidates(inv, l, th);
    forall c | c in q ensures c in inv.lists[l] {
      assert c in sorted;
      assert c in multiset(sorted);
    }
    forall i | 0 <= i < |q| ensures q[i].id in before.sets {
      assert q[i] in q;
      var j :| 0 <= j < |inv.lists[l]| && inv.lists[l][j] == q[i];
    }
  }

  /** One label of the merge pass. */
  function MergeStep<T>(before: Clustering<int, T>, after: Clustering<string, T>, th: Thresholds, inv: Inverse, st: MergeState, l: string): (r: MergeState)
    requires InverseOk(before, after, inv) && l in inv.lists && MappingOk(st.mapping)
    ensures MappingOk(r.mapping)
  {
    var q := MergeCandidates(inv, l, th);
    MergeCandidatesKnown(before, after, inv, l, th);
    if |q| < 2 then st
    else
      var coverage := MergeCoverage(before, after.sets[l], q);
      if coverage >= th.mergeCoverageMin then
        var ids := Ids(q);
        MergeState(RetypeUpTo(st.mapping, ids, l, |ids|), st.fusions + [Fusion(l, ids, Round3(coverage))])
      else st
  }

  /** The merge pass over the first `n` labels of the inverse index. */
  function MergeUpTo<T>(before: Clustering<int, T>, after: Clustering<string, T>, th: Thresholds, inv: Inverse, start: MergeState, n: nat): (r: MergeState)
    requires InverseOk(before, after, inv) && n <= |inv.order| && MappingOk(start.mapping)
    ensures MappingOk(r.mapping)
  {
    if n == 0 then start
    else MergeStep(before, after, th, inv, MergeUpTo(before, after, th, inv, start, n - 1), inv.order[n - 1])
  }

  // ---------------------------------------------------------------------------
  // Whole reconciliation
  // ---------------------------------------------------------------------------

  lemma {:induction false} AddRowOk<T>(before: Clustering<int, T>, after: Clustering<string, T>, inv: Inverse, k: int, n: nat)
    requires WellFormed(after) && InverseOk(before, after, inv) && k in before.sets
    requires n <= |Candidates(before.sets[k], after)|
    ensures InverseOk(before, after, AddRowUpTo(inv, k, Candidates(before.sets[k], after), n))
  {
    if n > 0 {
      AddRowOk(before, after, inv, k, n - 1);
      var cs := Candidates(before.sets[k], after);
      CandidatesMetrics(before.sets[k], after);
      AddContributionOk(before, after, AddRowUpTo(inv, k, cs, n - 1), cs[n - 1].target, Contribution(k, cs[n - 1].metrics));
    }
  }

  lemma AddContributionOk<T>(before: Clustering<int, T>, after: Clustering<string, T>, inv: Inverse, l: string, c: Contribution)
    requires InverseOk(before, after, inv) && l in after.sets && c.id in before.sets
    requires before.sets[c.id] * after.sets[l] != {} && c.metrics == MetricsOf(before.sets[c.id], after.sets[l])
    ensures InverseOk(before, after, AddContribution(inv, l, c))
  {
    var r := AddContribution(inv, l, c);
    forall l', i | l' in r.lists && 0 <= i < |r.lists[l']|
      ensures r.lists[l'][i].id in before.sets
      ensures before.sets[r.lists[l'][i].id] * after.sets[l'] != {}
      ensures r.lists[l'][i].metrics == MetricsOf(before.sets[r.lists[l'][i].id], after.sets[l'])
    {
      if l' != l {
        assert r.lists[l'] == inv.lists[l'];
      } else if i < |r.lists[l']| - 1 {
        assert r.lists[l'][i] == inv.lists[l][i];
      }
    }
  }

  lemma {:induction false} InverseUpToOk<T>(before: Clustering<int, T>, after: Clustering<string, T>, n: nat)
    requires WellFormed(before) && WellFormed(after) && n <= |before.order|
    ensures InverseOk(before, after, InverseUpTo(before, after, n))
  {
    if n > 0 {
      InverseUpToOk(before, after, n - 1);
      var k := before.order[n - 1];
      AddRowOk(before, after, InverseUpTo(before, after, n - 1), k, |Candidates(before.sets[k], after)|);
    }
  }

  /** `reconciliar_clusters_misto`. */
  function Reconcile<T>(before: Clustering<int, T>, after: Clustering<string, T>, th: Thresholds): Outcome
    requires WellFormed(before) && WellFormed(after)
  {
    if before.order == [] then Outcome(Mapping([], map[]), after.order, [], [])
    else
      var classified := ClassifyUpTo(before, after, th, |before.order|);
      var gone := Ordering.Sort(Unclassified(before.order, classified), Ordering.IntLess);
      var unmatched := Ordering.Sort(Unmatched(after.order, Destinations(classified)), Ordering.StrLess);
      var inv := InverseUpTo(before, after, |before.order|);
      InverseUpToOk(before, after, |before.order|);
      var merged := MergeUpTo(before, after, th, inv, MergeState(classified, []), |inv.order|);
      Outcome(merged.mapping, unmatched, gone, merged.fusions)
  }
}
