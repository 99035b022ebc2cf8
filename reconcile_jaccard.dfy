/**
 * The Jaccard-only reconciliation: every old cluster is matched with the new
 * cluster of highest Jaccard index, scanning the new clusters in order and
 * keeping the first maximum, and the match is kept when it reaches the
 * threshold. New clusters that no old one matched are "created"; old
 * clusters that matched nothing have "disappeared".
 */
module JaccardReconciler {
  import opened Wrappers
  import opened Clusters
  import Similarity

  /** `{'novo_id': dest, 'similaridade': similarity}`; `dest` stays None only when there is no new cluster. */
  datatype Match<L> = Match(dest: Option<L>, similarity: real)

  function JaccardWith<L, T>(a: set<T>, after: Clustering<L, T>, j: nat): real
    requires WellFormed(after) && j < |after.order|
  {
    Similarity.Jaccard(a, after.sets[after.order[j]])
  }

  /** The scan state after the first `n` new clusters, starting from (None, -1.0) and moving on a strict `>`. */
  function BestScan<L, T>(a: set<T>, after: Clustering<L, T>, n: nat): (Option<L>, real)
    requires WellFormed(after) && n <= |after.order|
  {
    if n == 0 then (None, -1.0)
    else
      var prev := BestScan(a, after, n - 1);
      var j := JaccardWith(a, after, n - 1);
      if j > prev.1 then (Some(after.order[n - 1]), j) else prev
  }

  /** Position `k` holds the first maximum of the Jaccard index among the first `n` new clusters. */
  predicate FirstMaxAt<L, T>(a: set<T>, after: Clustering<L, T>, n: nat, k: nat, sim: real)
    requires WellFormed(after) && n <= |after.order|
  {
    && k < n
    && sim == JaccardWith(a, after, k)
    && (forall j :: 0 <= j < n ==> JaccardWith(a, after, j) <= sim)
    && (forall j :: 0 <= j < k ==> JaccardWith(a, after, j) < sim)
  }

  /** The scan finds the first new cluster of maximal Jaccard index. */
  lemma {:induction false} BestScanFirstMax<L, T>(a: set<T>, after: Clustering<L, T>, n: nat)
    requires WellFormed(after) && n <= |after.order|
    ensures n == 0 ==> BestScan(a, after, n) == (None, -1.0)
    ensures n > 0 ==> (BestScan(a, after, n).0.Some? &&
      exists k: nat :: FirstMaxAt(a, after, n, k, BestScan(a, after, n).1) && BestScan(a, after, n).0.value == after.order[k])
  {
    if n > 0 {
      BestScanFirstMax(a, after, n - 1);
      var k := ScanStep(a, after, n);
      assert FirstMaxAt(a, after, n, k, BestScan(a, after, n).1) && BestScan(a, after, n).0.value == after.order[k];
    }
  }

  /** One step of the scan: from the first maximum among `n - 1` new clusters to the one among `n`. */
  lemma ScanStep<L, T>(a: set<T>, after: Clustering<L, T>, n: nat) returns (k: nat)
    requires WellFormed(after) && 0 < n <= |after.order|
    requires n - 1 == 0 ==> BestScan(a, after, n - 1) == (None, -1.0)
    requires n - 1 > 0 ==> (BestScan(a, after, n - 1).0.Some? &&
      exists k: nat :: FirstMaxAt(a, after, n - 1, k, BestScan(a, after, n - 1).1) && BestScan(a, after, n - 1).0.value == after.order[k])
    ensures BestScan(a, after, n).0.Some?
    ensures FirstMaxAt(a, after, n, k, BestScan(a, after, n).1) && BestScan(a, after, n).0.value == after.order[k]
  {
    var prev := BestScan(a, after, n - 1);
    if n - 1 == 0 {
      k := 0;
      ScanFirst(a, after);
    } else {
      var i: nat :| FirstMaxAt(a, after, n - 1, i, prev.1) && prev.0.value == after.order[i];
      if JaccardWith(a, after, n - 1) > prev.1 {
        k := n - 1;
        ScanNewMax(a, after, n, i);
      } else {
        k := i;
        ScanKeepsMax(a, after, n, i);
      }
    }
  }

  lemma ScanFirst<L, T>(a: set<T>, after: Clustering<L, T>)
    requires WellFormed(after) && 0 < |after.order|
    ensures BestScan(a, after, 1) == (Some(after.order[0]), JaccardWith(a, after, 0))
    ensures FirstMaxAt(a, after, 1, 0, BestScan(a, after, 1).1)
  {
    assert BestScan(a, after, 0) == (None, -1.0);
  }

  lemma ScanNewMax<L, T>(a: set<T>, after: Clustering<L, T>, n: nat, i: nat)
    requires WellFormed(after) && 1 < n <= |after.order|
    requires FirstMaxAt(a, after, n - 1, i, BestScan(a, after, n - 1).1)
    requires JaccardWith(a, after, n - 1) > BestScan(a, after, n - 1).1
    ensures BestScan(a, after, n) == (Some(after.order[n - 1]), JaccardWith(a, after, n - 1))
    ensures FirstMaxAt(a, after, n, n - 1, BestScan(a, after, n).1)
  {
  }

  lemma ScanKeepsMax<L, T>(a: set<T>, after: Clustering<L, T>, n: nat, i: nat)
    requires WellFormed(after) && 1 < n <= |after.order|
    requires FirstMaxAt(a, after, n - 1, i, BestScan(a, after, n - 1).1)
    requires JaccardWith(a, after, n - 1) <= BestScan(a, after, n - 1).1
    ensures BestScan(a, after, n) == BestScan(a, after, n - 1)
    ensures FirstMaxAt(a, after, n, i, BestScan(a, after, n).1)
  {
    FirstMaxKept(a, after, n, i, BestScan(a, after, n - 1).1);
  }

  /** A first maximum stays one when the next index is no larger. */
  lemma FirstMaxKept<L, T>(a: set<T>, after: Clustering<L, T>, n: nat, k: nat, sim: real)
    requires WellFormed(after) && 0 < n <= |after.order|
    requires FirstMaxAt(a, after, n - 1, k, sim) && JaccardWith(a, after, n - 1) <= sim
    ensures FirstMaxAt(a, after, n, k, sim)
  {
    forall j | 0 <= j < n ensures JaccardWith(a, after, j) <= sim {
      if j < n - 1 {
        assert JaccardWith(a, after, j) <= sim;
      }
    }
  }

  /** The entry for one old cluster: its best match when that reaches the threshold. */
  function MatchOf<L, T>(a: set<T>, after: Clustering<L, T>, threshold: real): Option<Match<L>>
    requires WellFormed(after)
  {
    var best := BestScan(a, after, |after.order|);
    if best.1 >= threshold then Some(Match(best.0, best.1)) else None
  }

  /** `mapeamento_final` after the first `n` old clusters. */
  function MappingUpTo<K, L, T>(before: Clustering<K, T>, after: Clustering<L, T>, threshold: real, n: nat): map<K, Match<L>>
    requires WellFormed(before) && WellFormed(after) && n <= |before.order|
  {
    if n == 0 then map[]
    else
      var m := MappingUpTo(before, after, threshold, n - 1);
      var k := before.order[n - 1];
      match MatchOf(before.sets[k], after, threshold)
      case Some(e) => m[k := e]
      case None => m
  }

  /** The destinations a mapping names. */
  function Destinations<K, L>(m: map<K, Match<L>>): set<L> {
    set k | k in m && m[k].dest.Some? :: m[k].dest.value
  }

  datatype Outcome<K, L> = Outcome(mapping: map<K, Match<L>>, created: set<L>, disappeared: set<K>)

  /** `reconciliar_clusters`; the two result lists are those of sets, in no particular order. */
  function Reconcile<K, L, T>(before: Option<Clustering<K, T>>, after: Clustering<L, T>, threshold: real): Outcome<K, L>
    requires before.Some? ==> WellFormed(before.value)
    requires WellFormed(after)
  {
    if before.None? || before.value.order == [] then Outcome(map[], after.sets.Keys, {})
    else
      var m := MappingUpTo(before.value, after, threshold, |before.value.order|);
      Outcome(m, after.sets.Keys - Destinations(m), before.value.sets.Keys - m.Keys)
  }

  /** The inner loop of `reconciliar_clusters`: the scan of the new clusters for one old cluster's files. */
  method BestMatch<L, T>(files: set<T>, after: Clustering<L, T>) returns (best: Option<L>, bestSim: real)
    requires WellFormed(after)
    ensures (best, bestSim) == BestScan(files, after, |after.order|)
  {
    best, bestSim := None, -1.0;
    var j: nat := 0;
    while j < |after.order|
      invariant 0 <= j <= |after.order|
      invariant (best, bestSim) == BestScan(files, after, j)
    {
      var sim := Similarity.Jaccard(files, after.sets[after.order[j]]);
      if sim > bestSim {
        bestSim := sim;
        best := Some(after.order[j]);
      }
      j := j + 1;
    }
  }

  /** The nested scan of `reconciliar_clusters`. */
  method ReconcileClusters<K, L, T>(before: Option<Clustering<K, T>>, after: Clustering<L, T>, threshold: real)
    returns (mapping: map<K, Match<L>>, created: set<L>, disappeared: set<K>)
    requires before.Some? ==> WellFormed(before.value)
    requires WellFormed(after)
    ensures Outcome(mapping, created, disappeared) == Reconcile(before, after, threshold)
    ensures (before.None? || before.value.order == []) ==> mapping == map[] && created == after.sets.Keys && disappeared == {}
    ensures before.Some? && before.value.order != [] ==>
      created == after.sets.Keys - Destinations(mapping) && disappeared == before.value.sets.Keys - mapping.Keys
  {
    if before.None? || before.value.order == [] {
      return map[], after.sets.Keys, {};
    }
    var o := before.value;
    mapping := map[];
    var mapped: set<K> := {};
    var i: nat := 0;
    while i < |o.order|
      invariant 0 <= i <= |o.order|
      invariant mapping == MappingUpTo(o, after, threshold, i)
      invariant mapped == mapping.Keys
    {
      var id := o.order[i];
      var files := o.sets[id];
      var best, bestSim := BestMatch(files, after);
      ghost var prev := mapping;
      if bestSim >= threshold {
        mapping := mapping[id := Match(best, bestSim)];
        mapped := mapped + {id};
      }
      assert mapping == match MatchOf(files, after, threshold) case Some(e) => prev[id := e] case None => prev;
      i := i + 1;
    }
    var dests := set k | k in mapping && mapping[k].dest.Some? :: mapping[k].dest.value;
    created := after.sets.Keys - dests;
    disappeared := o.sets.Keys - mapped;
  }

  /** The keys of the mapping after `n` old clusters are those among them whose best match reaches the threshold. */
  lemma {:induction false} MappingUpToKeys<K, L, T>(before: Clustering<K, T>, after: Clustering<L, T>, threshold: real, n: nat, k: K)
    requires WellFormed(before) && WellFormed(after) && n <= |before.order|
    ensures k in MappingUpTo(before, after, threshold, n) <==>
      (k in before.order[..n] && MatchOf(before.sets[k], after, threshold).Some?)
    ensures k in MappingUpTo(before, after, threshold, n) ==>
      MappingUpTo(before, after, threshold, n)[k] == MatchOf(before.sets[k], after, threshold).value
  {
    if n > 0 {
      MappingUpToKeys(before, after, threshold, n - 1, k);
      assert before.order[..n] == before.order[..n - 1] + [before.order[n - 1]];
    }
  }

  /**
   * An old cluster is mapped exactly when its best Jaccard index reaches the
   * threshold; it is then mapped to the first new cluster of maximal index,
   * with that index as similarity. Old clusters are matched independently, so
   * several may share a destination.
   */
  lemma MappedIffBestReachesThreshold<K, L, T>(before: Clustering<K, T>, after: Clustering<L, T>, threshold: real, k: K)
    requires WellFormed(before) && WellFormed(after) && before.order != [] && k in before.sets
    requires after.order != []
    ensures var out := Reconcile(Some(before), after, threshold);
      && (k in out.mapping <==> BestScan(before.sets[k], after, |after.order|).1 >= threshold)
      && (k in out.mapping ==> exists j: nat :: FirstMaxAt(before.sets[k], after, |after.order|, j, out.mapping[k].similarity) && out.mapping[k].dest == Some(after.order[j]))
      && (k in out.disappeared <==> k !in out.mapping)
  {
    var n := |before.order|;
    MappingUpToKeys(before, after, threshold, n, k);
    assert before.order[..n] == before.order;
    BestScanFirstMax(before.sets[k], after, |after.order|);
  }

  /** With no new cluster at all, an old cluster can only be kept, with no destination, under a threshold of at most -1. */
  lemma NoNewClusters<K, L, T>(before: Clustering<K, T>, after: Clustering<L, T>, threshold: real, k: K)
    requires WellFormed(before) && WellFormed(after) && before.order != [] && k in before.sets
    requires after.order == []
    ensures var out := Reconcile(Some(before), after, threshold);
      (k in out.mapping <==> threshold <= -1.0) && (k in out.mapping ==> out.mapping[k] == Match(None, -1.0))
  {
    var n := |before.order|;
    MappingUpToKeys(before, after, threshold, n, k);
    assert before.order[..n] == before.order;
  }
}
