/**
 * The two demonstration clusterings of `criar_arquivos_de_exemplo` and what
 * both reconcilers make of them. The file coredump_00n.bin is item n, and the
 * old labels '0', '1', '2' are the ids 0, 1, 2 (the mixed reconciler keys the
 * old side by integer id). The reconcilers are generic in the item type, so
 * this renaming changes nothing they compute.
 *
 * Old: '0' = {001, 002, 004}, '1' = {003, 005}, '2' = {008}.
 * New: '1' = {001, 002, 004, 007}, '0' = {003, 005}, '2' = {006, 009}.
 */
module ReconcileDemo {
  import opened Wrappers
  import opened Clusters
  import opened MixedSpec
  import opened MixedProperties
  import opened MixedMerge
  import opened MixedFusions
  import JaccardReconciler
  import Similarity
  import Ordering

  /** The old CSV, its labels in order of first appearance. */
  function DemoBefore(): (c: Clustering<int, int>)
    ensures WellFormed(c)
  {
    Clustering([0, 1, 2], map[0 := {1, 2, 4}, 1 := {3, 5}, 2 := {8}])
  }

  /** The new CSV, its labels in order of first appearance. */
  function DemoAfter(): (c: Clustering<string, int>)
    ensures WellFormed(c)
  {
    Clustering(["1", "0", "2"], map["1" := {1, 2, 4, 7}, "0" := {3, 5}, "2" := {6, 9}])
  }

  /** Which old and new clusters meet: 0 only '1', 1 only '0', and 2 none. */
  lemma DemoMeets()
    ensures DemoBefore().sets.Keys == {0, 1, 2} && DemoAfter().sets.Keys == {"1", "0", "2"}
    ensures forall k, l | k in DemoBefore().sets && l in DemoAfter().sets ::
      (DemoBefore().sets[k] * DemoAfter().sets[l] != {} <==> (k == 0 && l == "1") || (k == 1 && l == "0"))
  {
    var b, a := DemoBefore().sets, DemoAfter().sets;
    assert b[0] * a["1"] == {1, 2, 4};
    assert 3 in b[1] * a["0"];
    assert b[0] * a["0"] == {} && b[0] * a["2"] == {};
    assert b[1] * a["1"] == {} && b[1] * a["2"] == {};
    assert b[2] * a["1"] == {} && b[2] * a["0"] == {} && b[2] * a["2"] == {};
  }

  /** The metrics of the two pairs that meet. */
  lemma DemoMetrics()
    ensures MetricsOf(DemoBefore().sets[0], DemoAfter().sets["1"]) == Metrics(3, 0.75, 1.0, 3, 4)
    ensures MetricsOf(DemoBefore().sets[1], DemoAfter().sets["0"]) == Metrics(2, 1.0, 1.0, 2, 2)
  {
    var b, a := DemoBefore().sets, DemoAfter().sets;
    assert b[0] * a["1"] == {1, 2, 4} && b[0] + a["1"] == {1, 2, 4, 7};
    assert |{1, 2, 4}| == 3 && |{1, 2, 4, 7}| == 4;
    assert b[1] * a["0"] == {3, 5} && b[1] + a["0"] == {3, 5};
    assert |{3, 5}| == 2;
  }

  /** The verdicts of the classification loop on the demo data, under the default thresholds. */
  lemma DemoVerdicts()
    ensures Verdict(DemoBefore().sets[0], DemoAfter(), Defaults) == Some(Entry(Single("1"), Some(0.75), Some(1.0), Evolution))
    ensures Verdict(DemoBefore().sets[1], DemoAfter(), Defaults) == Some(Entry(Single("0"), Some(1.0), Some(1.0), Evolution))
    ensures Verdict(DemoBefore().sets[2], DemoAfter(), Defaults) == None
  {
    var b, after := DemoBefore().sets, DemoAfter();
    DemoMeets();
    DemoMetrics();
    assert Candidates(b[0], after) == [Candidate("1", Metrics(3, 0.75, 1.0, 3, 4))] by {
      assert CandidatesUpTo(b[0], after, 1) == [Candidate("1", Metrics(3, 0.75, 1.0, 3, 4))];
      assert CandidatesUpTo(b[0], after, 2) == CandidatesUpTo(b[0], after, 1);
    }
    assert Candidates(b[1], after) == [Candidate("0", Metrics(2, 1.0, 1.0, 2, 2))] by {
      assert CandidatesUpTo(b[1], after, 1) == [];
      assert CandidatesUpTo(b[1], after, 2) == [Candidate("0", Metrics(2, 1.0, 1.0, 2, 2))];
    }
    NoCandidateNoVerdict(b[2], after, Defaults);
  }

  lemma FirstTwo<X>(s: seq<X>, e: X)
    requires |s| >= 2 && forall x :: x in s <==> x == e
    ensures s[0] == e && s[1] == e
  {
    assert s[0] in s && s[1] in s;
  }

  /** A strictly increasing list of ids whose only element is `e` is `[e]`. */
  lemma OnlyId(s: seq<int>, e: int)
    requires Ordering.StrictlySorted(s, Ordering.IntLess)
    requires forall x :: x in s <==> x == e
    ensures s == [e]
  {
    assert e in s;
    if |s| >= 2 {
      FirstTwo(s, e);
      assert false;
    }
  }

  /** A strictly increasing list of labels whose only element is `e` is `[e]`. */
  lemma OnlyLabel(s: seq<string>, e: string)
    requires Ordering.StrictlySorted(s, Ordering.StrLess)
    requires forall x :: x in s <==> x == e
    ensures s == [e]
  {
    assert e in s;
    if |s| >= 2 {
      FirstTwo(s, e);
      Ordering.StrLessIrreflexive(e);
      assert false;
    }
  }

  /** The classified entries of the demo, before the merge pass. */
  function DemoEntries(): map<int, Entry> {
    map[0 := Entry(Single("1"), Some(0.75), Some(1.0), Evolution), 1 := Entry(Single("0"), Some(1.0), Some(1.0), Evolution)]
  }

  /** The shape of the demo: old ids 0, 1, 2, new labels '1', '0', '2', and the verdicts of the classification loop. */
  predicate DemoShaped<T>(before: Clustering<int, T>, after: Clustering<string, T>, th: Thresholds)
    requires WellFormed(after)
  {
    && before.order != [] && before.sets.Keys == {0, 1, 2} && after.sets.Keys == {"1", "0", "2"}
    && Verdict(before.sets[0], after, th) == Some(DemoEntries()[0])
    && Verdict(before.sets[1], after, th) == Some(DemoEntries()[1])
    && Verdict(before.sets[2], after, th) == None
  }

  lemma DemoClassified<T>(before: Clustering<int, T>, after: Clustering<string, T>, th: Thresholds)
    requires WellFormed(before) && WellFormed(after) && DemoShaped(before, after, th)
    ensures ClassifyUpTo(before, after, th, |before.order|).entries == DemoEntries()
  {
    var c := ClassifyUpTo(before, after, th, |before.order|);
    forall k ensures k in c.entries <==> k in DemoEntries() {
      ClassifiedExactly(before, after, th, k);
    }
    forall k | k in DemoEntries() ensures c.entries[k] == DemoEntries()[k] {
      ClassifiedExactly(before, after, th, k);
    }
  }

  lemma DemoMappedEntry<T>(before: Clustering<int, T>, after: Clustering<string, T>, th: Thresholds, k: int)
    requires WellFormed(before) && WellFormed(after) && DemoShaped(before, after, th)
    requires Reconcile(before, after, th).fusions == []
    ensures EntryOf(Reconcile(before, after, th).mapping, k) == EntryOf(Mapping([], DemoEntries()), k)
  {
    MergedMapping(before, after, th, k);
  }

  /** A mapping whose every lookup agrees with the entries `e` holds exactly `e`. */
  lemma EntriesAgree(m: Mapping, e: map<int, Entry>)
    requires forall k :: EntryOf(m, k) == EntryOf(Mapping([], e), k)
    ensures m.entries == e
  {
    forall k ensures k in m.entries <==> k in e {
      assert EntryOf(m, k) == EntryOf(Mapping([], e), k);
    }
    forall k | k in e ensures m.entries[k] == e[k] {
      assert EntryOf(m, k) == EntryOf(Mapping([], e), k);
    }
  }

  lemma DemoMapping<T>(before: Clustering<int, T>, after: Clustering<string, T>, th: Thresholds)
    requires WellFormed(before) && WellFormed(after) && DemoShaped(before, after, th)
    requires Reconcile(before, after, th).fusions == []
    ensures Reconcile(before, after, th).mapping.entries == DemoEntries()
  {
    forall k ensures EntryOf(Reconcile(before, after, th).mapping, k) == EntryOf(Mapping([], DemoEntries()), k) {
      DemoMappedEntry(before, after, th, k);
    }
    EntriesAgree(Reconcile(before, after, th).mapping, DemoEntries());
  }

  /** The old ids without a verdict, sorted: only 2. */
  lemma DemoGone<T>(gone: seq<int>, before: Clustering<int, T>, after: Clustering<string, T>, th: Thresholds)
    requires WellFormed(after) && DemoShaped(before, after, th)
    requires Ordering.StrictlySorted(gone, Ordering.IntLess)
    requires forall k :: k in gone <==> k in before.sets && Verdict(before.sets[k], after, th).None?
    ensures gone == [2]
  {
    forall k ensures k in gone <==> k == 2 {
      assert k in before.sets <==> k == 0 || k == 1 || k == 2;
    }
    OnlyId(gone, 2);
  }

  lemma DemoDisappeared<T>(before: Clustering<int, T>, after: Clustering<string, T>, th: Thresholds)
    requires WellFormed(before) && WellFormed(after) && DemoShaped(before, after, th)
    ensures Reconcile(before, after, th).disappeared == [2]
  {
    DisappearedExactly(before, after, th);
    DemoGone(Reconcile(before, after, th).disappeared, before, after, th);
  }

  /** With the demo's classified entries, '2' is the only label nobody points to. */
  lemma DemoUnpointed(c: Mapping, labels: set<string>)
    requires c.entries == DemoEntries() && labels == {"1", "0", "2"}
    ensures forall l :: l in labels && !PointsTo(c, l) <==> l == "2"
  {
    assert "1" in DestLabels(c.entries[0].dest) && "0" in DestLabels(c.entries[1].dest);
  }

  lemma DemoNewLabels<T>(before: Clustering<int, T>, after: Clustering<string, T>, th: Thresholds)
    requires WellFormed(before) && WellFormed(after) && DemoShaped(before, after, th)
    ensures Reconcile(before, after, th).newLabels == ["2"]
  {
    DemoClassified(before, after, th);
    DemoUnpointed(ClassifyUpTo(before, after, th, |before.order|), after.sets.Keys);
    NewLabelsExactly(before, after, th);
    OnlyLabel(Reconcile(before, after, th).newLabels, "2");
  }

  /**
   * `reconciliar_clusters_misto` on the demo data: old '0' evolves into new
   * '1' (Jaccard index 0.75, overlap 1), old '1' evolves into new '0'
   * (both 1), old '2' disappears, '2' is the only new label, and no fusion
   * is recorded.
   */
  lemma DemoMixed()
    ensures var out := Reconcile(DemoBefore(), DemoAfter(), Defaults);
      && out.mapping.entries == map[0 := Entry(Single("1"), Some(0.75), Some(1.0), Evolution),
                                    1 := Entry(Single("0"), Some(1.0), Some(1.0), Evolution)]
      && out.disappeared == [2]
      && out.newLabels == ["2"]
      && out.fusions == []
  {
    DemoMeets();
    DemoVerdicts();
    DemoNoFusion();
    DemoMapping(DemoBefore(), DemoAfter(), Defaults);
    DemoDisappeared(DemoBefore(), DemoAfter(), Defaults);
    DemoNewLabels(DemoBefore(), DemoAfter(), Defaults);
  }

  /** No new cluster of the demo has two old clusters meeting it, so the merge pass records nothing. */
  lemma DemoNoFusion()
    ensures Reconcile(DemoBefore(), DemoAfter(), Defaults).fusions == []
  {
    var before, after, th := DemoBefore(), DemoAfter(), Defaults;
    DemoMeets();
    forall l | l in after.sets ensures !TwoQualifiers(before, after, th, l) {
      forall k1, k2 | Qualifies(before, after, th, l, k1) && Qualifies(before, after, th, l, k2) ensures k1 == k2 {
      }
    }
    if Reconcile(before, after, th).fusions != [] {
      FirstFusionQualifiers(before, after, th);
      assert false;
    }
  }

  /** The new clusters in the demo's order, with the Jaccard index of `a` against each. */
  predicate DemoScores<T>(a: set<T>, after: Clustering<string, T>, s1: real, s0: real, s2: real) {
    && after.order == ["1", "0", "2"] && after.sets.Keys == {"1", "0", "2"}
    && Similarity.Jaccard(a, after.sets["1"]) == s1
    && Similarity.Jaccard(a, after.sets["0"]) == s0
    && Similarity.Jaccard(a, after.sets["2"]) == s2
  }

  lemma DemoScores0()
    ensures DemoScores(DemoBefore().sets[0], DemoAfter(), 0.75, 0.0, 0.0)
  {
    var b, a := DemoBefore().sets, DemoAfter().sets;
    DemoMetrics();
    Similarity.JaccardExtremes(b[0], a["0"]);
    Similarity.JaccardExtremes(b[0], a["2"]);
  }

  lemma DemoScores1()
    ensures DemoScores(DemoBefore().sets[1], DemoAfter(), 0.0, 1.0, 0.0)
  {
    var b, a := DemoBefore().sets, DemoAfter().sets;
    DemoMetrics();
    Similarity.JaccardExtremes(b[1], a["1"]);
    Similarity.JaccardExtremes(b[1], a["2"]);
  }

  lemma DemoScores2()
    ensures DemoScores(DemoBefore().sets[2], DemoAfter(), 0.0, 0.0, 0.0)
  {
    var b, a := DemoBefore().sets, DemoAfter().sets;
    DemoMeets();
    Similarity.JaccardExtremes(b[2], a["1"]);
    Similarity.JaccardExtremes(b[2], a["0"]);
    Similarity.JaccardExtremes(b[2], a["2"]);
  }

  lemma DemoMatch0<T>(a: set<T>, after: Clustering<string, T>)
    requires WellFormed(after) && DemoScores(a, after, 0.75, 0.0, 0.0)
    ensures JaccardReconciler.MatchOf(a, after, 0.7) == Some(JaccardReconciler.Match(Some("1"), 0.75))
  {
    assert JaccardReconciler.BestScan(a, after, 1) == (Some("1"), 0.75);
    assert JaccardReconciler.BestScan(a, after, 2) == (Some("1"), 0.75);
  }

  lemma DemoMatch1<T>(a: set<T>, after: Clustering<string, T>)
    requires WellFormed(after) && DemoScores(a, after, 0.0, 1.0, 0.0)
    ensures JaccardReconciler.MatchOf(a, after, 0.7) == Some(JaccardReconciler.Match(Some("0"), 1.0))
  {
    assert JaccardReconciler.BestScan(a, after, 1) == (Some("1"), 0.0);
    assert JaccardReconciler.BestScan(a, after, 2) == (Some("0"), 1.0);
  }

  lemma DemoMatch2<T>(a: set<T>, after: Clustering<string, T>)
    requires WellFormed(after) && DemoScores(a, after, 0.0, 0.0, 0.0)
    ensures JaccardReconciler.MatchOf(a, after, 0.7) == None
  {
    assert JaccardReconciler.BestScan(a, after, 1) == (Some("1"), 0.0);
    assert JaccardReconciler.BestScan(a, after, 2) == (Some("1"), 0.0);
  }

  /** The mapping of the Jaccard reconciliation on the demo data. */
  function DemoMatches(): map<int, JaccardReconciler.Match<string>> {
    map[0 := JaccardReconciler.Match(Some("1"), 0.75), 1 := JaccardReconciler.Match(Some("0"), 1.0)]
  }

  /** The mapping loop over old ids 0, 1, 2 in order, from the match of each. */
  lemma DemoJaccardMapping<T>(before: Clustering<int, T>, after: Clustering<string, T>)
    requires WellFormed(before) && WellFormed(after) && before.order == [0, 1, 2] && before.sets.Keys == {0, 1, 2}
    requires JaccardReconciler.MatchOf(before.sets[0], after, 0.7) == Some(DemoMatches()[0])
    requires JaccardReconciler.MatchOf(before.sets[1], after, 0.7) == Some(DemoMatches()[1])
    requires JaccardReconciler.MatchOf(before.sets[2], after, 0.7) == None
    ensures JaccardReconciler.MappingUpTo(before, after, 0.7, 3) == DemoMatches()
  {
    assert JaccardReconciler.MappingUpTo(before, after, 0.7, 1) == map[0 := DemoMatches()[0]];
    assert JaccardReconciler.MappingUpTo(before, after, 0.7, 2) == DemoMatches();
  }

  lemma DemoDestinations()
    ensures JaccardReconciler.Destinations(DemoMatches()) == {"1", "0"}
  {
    var m := DemoMatches();
    assert m[0].dest.value == "1" && m[1].dest.value == "0";
  }

  lemma DemoJaccardOutcome<T>(before: Clustering<int, T>, after: Clustering<string, T>)
    requires WellFormed(before) && WellFormed(after) && before.order == [0, 1, 2]
    requires before.sets.Keys == {0, 1, 2} && after.sets.Keys == {"1", "0", "2"}
    requires JaccardReconciler.MappingUpTo(before, after, 0.7, 3) == DemoMatches()
    ensures var out := JaccardReconciler.Reconcile(Some(before), after, 0.7);
      out.mapping == DemoMatches() && out.created == {"2"} && out.disappeared == {2}
  {
    DemoDestinations();
  }

  lemma DemoMatchOf0()
    ensures JaccardReconciler.MatchOf(DemoBefore().sets[0], DemoAfter(), 0.7) == Some(DemoMatches()[0])
  {
    DemoScores0();
    DemoMatch0(DemoBefore().sets[0], DemoAfter());
  }

  lemma DemoMatchOf1()
    ensures JaccardReconciler.MatchOf(DemoBefore().sets[1], DemoAfter(), 0.7) == Some(DemoMatches()[1])
  {
    DemoScores1();
    DemoMatch1(DemoBefore().sets[1], DemoAfter());
  }

  lemma DemoMatchOf2()
    ensures JaccardReconciler.MatchOf(DemoBefore().sets[2], DemoAfter(), 0.7) == None
  {
    DemoScores2();
    DemoMatch2(DemoBefore().sets[2], DemoAfter());
  }

  /**
   * `reconciliar_clusters` on the demo data with the threshold 0.7 of
   * LIMIAR_SIMILARIDADE: old '0' matches new '1' at 0.75, old '1' matches
   * new '0' at 1, '2' is the only created cluster and old '2' disappears.
   */
  lemma DemoJaccard()
    ensures var out := JaccardReconciler.Reconcile(Some(DemoBefore()), DemoAfter(), 0.7);
      out.mapping == DemoMatches() && out.created == {"2"} && out.disappeared == {2}
  {
    DemoMatchOf0();
    DemoMatchOf1();
    DemoMatchOf2();
    DemoJaccardMapping(DemoBefore(), DemoAfter());
    DemoJaccardOutcome(DemoBefore(), DemoAfter());
  }
}
