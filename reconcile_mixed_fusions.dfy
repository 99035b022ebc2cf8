/**
 * What the merge pass produces: one fusion record per new cluster that two or
 * more old clusters cover well enough, and the retyping of the contributors'
 * entries in the mapping.
 */
module MixedFusions {
  import opened Wrappers
  import opened Clusters
  import opened MixedSpec
  import opened MixedProperties
  import opened MixedMerge
  import Similarity
  import Ordering

  // ---------------------------------------------------------------------------
  // When a fusion is recorded
  // ---------------------------------------------------------------------------

  /** Two different old clusters qualify for a merge into `l`. */
  ghost predicate TwoQualifiers<T>(before: Clustering<int, T>, after: Clustering<string, T>, th: Thresholds, l: string)
    requires l in after.sets
  {
    exists k1, k2 :: k1 != k2 && Qualifies(before, after, th, l, k1) && Qualifies(before, after, th, l, k2)
  }

  /**
   * The merge rule: at least two qualifying old clusters, whose items cover at
   * least the merge coverage of new cluster `l`.
   */
  ghost predicate MergeTriggered<T>(before: Clustering<int, T>, after: Clustering<string, T>, th: Thresholds, l: string)
    requires l in after.sets
  {
    && TwoQualifiers(before, after, th, l)
    && Similarity.Ratio(|MergeUnion(before, after, th, l)|, |after.sets[l]|) >= th.mergeCoverageMin
  }

  /** A fusion record as the merge rule describes it. */
  ghost predicate FusionRecord<T>(before: Clustering<int, T>, after: Clustering<string, T>, th: Thresholds, f: Fusion) {
    && f.target in after.sets
    && MergeTriggered(before, after, th, f.target)
    && Ordering.Distinct(f.contributors)
    && |f.contributors| >= 2
    && (forall k :: k in f.contributors <==> Qualifies(before, after, th, f.target, k))
    && f.coverage == Round3(Similarity.Ratio(|MergeUnion(before, after, th, f.target)|, |after.sets[f.target]|))
  }

  /** For candidates that are the qualifiers once each, two of them means two qualifiers. */
  lemma TwoCandidates<T>(before: Clustering<int, T>, after: Clustering<string, T>, th: Thresholds, l: string, q: seq<Contribution>)
    requires l in after.sets && DistinctIds(q)
    requires forall k :: (exists i :: 0 <= i < |q| && q[i].id == k) <==> Qualifies(before, after, th, l, k)
    ensures |q| >= 2 <==> TwoQualifiers(before, after, th, l)
  {
    if |q| >= 2 {
      assert Qualifies(before, after, th, l, q[0].id) && Qualifies(before, after, th, l, q[1].id);
    }
    if TwoQualifiers(before, after, th, l) {
      var k1, k2 :| k1 != k2 && Qualifies(before, after, th, l, k1) && Qualifies(before, after, th, l, k2);
      var i1 :| 0 <= i1 < |q| && q[i1].id == k1;
      var i2 :| 0 <= i2 < |q| && q[i2].id == k2;
      assert i1 != i2;
    }
  }

  /** A label with a qualifying old cluster has a list in the inverse index. */
  lemma QualifierListed<T>(before: Clustering<int, T>, after: Clustering<string, T>, th: Thresholds, l: string, k: int)
    requires WellFormed(before) && WellFormed(after) && l in after.sets
    requires Qualifies(before, after, th, l, k)
    ensures l in FullInverse(before, after).lists
  {
    FullListFacts(before, after, l);
    var i :| 0 <= i < |ListOf(FullInverse(before, after), l)| && ListOf(FullInverse(before, after), l)[i].id == k;
  }

  /** The contributors of the fusion for `l`: the ids of its merge candidates. */
  lemma ContributorsExact<T>(before: Clustering<int, T>, after: Clustering<string, T>, th: Thresholds, l: string)
    requires WellFormed(before) && WellFormed(after) && l in FullInverse(before, after).lists
    ensures var ids := Ids(MergeCandidates(FullInverse(before, after), l, th));
      && Ordering.Distinct(ids)
      && (|ids| >= 2 <==> TwoQualifiers(before, after, th, l))
      && (forall k :: k in ids <==> Qualifies(before, after, th, l, k))
  {
    var inv := FullInverse(before, after);
    var q := MergeCandidates(inv, l, th);
    MergeCandidatesExact(before, after, th, l);
    TwoCandidates(before, after, th, l, q);
    IdsOf(q);
  }

  /** The ids of contributions with distinct ids are distinct, and they are the ids some contribution has. */
  lemma IdsOf(q: seq<Contribution>)
    requires DistinctIds(q)
    ensures Ordering.Distinct(Ids(q))
    ensures forall k :: k in Ids(q) <==> exists i :: 0 <= i < |q| && q[i].id == k
  {
    var ids := Ids(q);
    forall k ensures k in ids <==> (exists i :: 0 <= i < |q| && q[i].id == k) {
      if k in ids {
        var i :| 0 <= i < |ids| && ids[i] == k;
      }
    }
  }

  /**
   * One label of the merge pass appends a fusion record for `l` exactly when
   * the merge rule holds, and then retypes its contributors.
   */
  lemma MergeStepFusion<T>(before: Clustering<int, T>, after: Clustering<string, T>, th: Thresholds, st: MergeState, l: string)
    requires WellFormed(before) && WellFormed(after) && MappingOk(st.mapping)
    requires l in FullInverse(before, after).lists
    ensures var r := MergeStep(before, after, th, FullInverse(before, after), st, l);
      && (!MergeTriggered(before, after, th, l) ==> r == st)
      && (MergeTriggered(before, after, th, l) ==>
            && |r.fusions| == |st.fusions| + 1
            && r.fusions[..|st.fusions|] == st.fusions
            && r.fusions[|st.fusions|].target == l
            && FusionRecord(before, after, th, r.fusions[|st.fusions|])
            && r.mapping == RetypeUpTo(st.mapping, r.fusions[|st.fusions|].contributors, l, |r.fusions[|st.fusions|].contributors|))
  {
    var inv := FullInverse(before, after);
    var q := MergeCandidates(inv, l, th);
    ContributorsExact(before, after, th, l);
    MergeCoverageIs(before, after, th, l);
    var r := MergeStep(before, after, th, inv, st, l);
    if MergeTriggered(before, after, th, l) {
      var f := Fusion(l, Ids(q), Round3(MergeCoverage(before, after.sets[l], q)));
      assert r.fusions == st.fusions + [f];
      assert r.fusions[|st.fusions|] == f;
    }
  }

  // ---------------------------------------------------------------------------
  // The whole merge pass: fusion records
  // ---------------------------------------------------------------------------

  /** The fusion records `fs` after the labels `labels` of the merge pass. */
  ghost predicate FusionsCover<T>(before: Clustering<int, T>, after: Clustering<string, T>, th: Thresholds, fs: seq<Fusion>, labels: seq<string>) {
    && (forall i | 0 <= i < |fs| :: FusionRecord(before, after, th, fs[i]) && fs[i].target in labels)
    && (forall i, j | 0 <= i < j < |fs| :: fs[i].target != fs[j].target)
    && (forall l | l in labels && l in after.sets && MergeTriggered(before, after, th, l) ::
          exists i :: 0 <= i < |fs| && fs[i].target == l)
  }

  function MergeFrom<T>(before: Clustering<int, T>, after: Clustering<string, T>, th: Thresholds, start: Mapping, n: nat): MergeState
    requires WellFormed(before) && WellFormed(after) && MappingOk(start) && n <= |FullInverse(before, after).order|
  {
    MergeUpTo(before, after, th, FullInverse(before, after), MergeState(start, []), n)
  }

  lemma MergeFromStep<T>(before: Clustering<int, T>, after: Clustering<string, T>, th: Thresholds, start: Mapping, n: nat)
    requires WellFormed(before) && WellFormed(after) && MappingOk(start) && 0 < n <= |FullInverse(before, after).order|
    ensures var inv := FullInverse(before, after);
      && inv.order[n - 1] in inv.lists
      && MergeFrom(before, after, th, start, n) ==
         MergeStep(before, after, th, inv, MergeFrom(before, after, th, start, n - 1), inv.order[n - 1])
  {
  }

  lemma FusionsCoverStep<T>(before: Clustering<int, T>, after: Clustering<string, T>, th: Thresholds, start: Mapping, n: nat)
    requires WellFormed(before) && WellFormed(after) && MappingOk(start) && 0 < n <= |FullInverse(before, after).order|
    ensures var order := FullInverse(before, after).order;
      FusionsCover(before, after, th, MergeFrom(before, after, th, start, n - 1).fusions, order[..n - 1]) ==>
      FusionsCover(before, after, th, MergeFrom(before, after, th, start, n).fusions, order[..n])
  {
    var order := FullInverse(before, after).order;
    var st := MergeFrom(before, after, th, start, n - 1);
    MergeFromStep(before, after, th, start, n);
    assert order[..n] == order[..n - 1] + [order[n - 1]];
    if FusionsCover(before, after, th, st.fusions, order[..n - 1]) {
      CoverAfterStep(before, after, th, st, order[..n - 1], order[n - 1]);
    }
  }

  lemma CoverAfterStep<T>(before: Clustering<int, T>, after: Clustering<string, T>, th: Thresholds, st: MergeState, labels: seq<string>, l: string)
    requires WellFormed(before) && WellFormed(after) && MappingOk(st.mapping)
    requires l in FullInverse(before, after).lists && l !in labels
    requires FusionsCover(before, after, th, st.fusions, labels)
    ensures FusionsCover(before, after, th, MergeStep(before, after, th, FullInverse(before, after), st, l).fusions, labels + [l])
  {
    MergeStepFusion(before, after, th, st, l);
    var fs := MergeStep(before, after, th, FullInverse(before, after), st, l).fusions;
    if MergeTriggered(before, after, th, l) {
      assert fs == st.fusions + [fs[|st.fusions|]];
      CoverAppend(before, after, th, st.fusions, labels, fs[|st.fusions|]);
    } else {
      CoverSkip(before, after, th, st.fusions, labels, l);
    }
  }

  lemma CoverAppend<T>(before: Clustering<int, T>, after: Clustering<string, T>, th: Thresholds, fs: seq<Fusion>, labels: seq<string>, f: Fusion)
    requires FusionsCover(before, after, th, fs, labels) && f.target !in labels && FusionRecord(before, after, th, f)
    ensures FusionsCover(before, after, th, fs + [f], labels + [f.target])
  {
    var r := fs + [f];
    var ls := labels + [f.target];
    forall i | 0 <= i < |r| ensures FusionRecord(before, after, th, r[i]) && r[i].target in ls {
      if i < |fs| { assert r[i] == fs[i]; }
    }
    forall i, j | 0 <= i < j < |r| ensures r[i].target != r[j].target {
      assert r[i] == fs[i];
      if j == |fs| { assert fs[i].target in labels; } else { assert r[j] == fs[j]; }
    }
    forall l | l in ls && l in after.sets && MergeTriggered(before, after, th, l)
      ensures exists i :: 0 <= i < |r| && r[i].target == l
    {
      if l == f.target {
        assert r[|fs|].target == l;
      } else {
        assert l in labels && l in after.sets && MergeTriggered(before, after, th, l);
        var i :| 0 <= i < |fs| && fs[i].target == l;
        assert r[i] == fs[i];
      }
    }
  }

  lemma CoverSkip<T>(before: Clustering<int, T>, after: Clustering<string, T>, th: Thresholds, fs: seq<Fusion>, labels: seq<string>, l: string)
    requires FusionsCover(before, after, th, fs, labels)
    requires l in after.sets ==> !MergeTriggered(before, after, th, l)
    ensures FusionsCover(before, after, th, fs, labels + [l])
  {
  }

  lemma {:induction false} MergeFromFusions<T>(before: Clustering<int, T>, after: Clustering<string, T>, th: Thresholds, start: Mapping, n: nat)
    requires WellFormed(before) && WellFormed(after) && MappingOk(start) && n <= |FullInverse(before, after).order|
    ensures FusionsCover(before, after, th, MergeFrom(before, after, th, start, n).fusions, FullInverse(before, after).order[..n])
  {
    var i: nat := 0;
    assert MergeFrom(before, after, th, start, 0).fusions == [];
    while i < n
      invariant i <= n
      invariant FusionsCover(before, after, th, MergeFrom(before, after, th, start, i).fusions, FullInverse(before, after).order[..i])
    {
      i := i + 1;
      FusionsCoverStep(before, after, th, start, i);
    }
  }

  /**
   * Each record states the merge rule for its target, with exactly the
   * qualifying old clusters as contributors; a new cluster gets a record
   * exactly when the rule holds, and at most one.
   */
  ghost predicate ExactFusions<T>(before: Clustering<int, T>, after: Clustering<string, T>, th: Thresholds, fs: seq<Fusion>) {
    && (forall i | 0 <= i < |fs| :: FusionRecord(before, after, th, fs[i]))
    && (forall i, j | 0 <= i < j < |fs| :: fs[i].target != fs[j].target)
    && (forall l | l in after.sets :: MergeTriggered(before, after, th, l) <==> exists i :: 0 <= i < |fs| && fs[i].target == l)
  }

  lemma MergePassFusions<T>(before: Clustering<int, T>, after: Clustering<string, T>, th: Thresholds, start: Mapping)
    requires WellFormed(before) && WellFormed(after) && MappingOk(start)
    ensures ExactFusions(before, after, th, MergeFrom(before, after, th, start, |FullInverse(before, after).order|).fusions)
  {
    var inv := FullInverse(before, after);
    MergeFromFusions(before, after, th, start, |inv.order|);
    assert inv.order[..|inv.order|] == inv.order;
    forall l | l in after.sets && MergeTriggered(before, after, th, l) ensures l in inv.order {
      var k1, k2 :| k1 != k2 && Qualifies(before, after, th, l, k1) && Qualifies(before, after, th, l, k2);
      QualifierListed(before, after, th, l, k1);
    }
  }

  /** The fusion records of the reconciliation follow the merge rule exactly. */
  lemma FusionsExactly<T>(before: Clustering<int, T>, after: Clustering<string, T>, th: Thresholds)
    requires WellFormed(before) && WellFormed(after)
    ensures ExactFusions(before, after, th, Reconcile(before, after, th).fusions)
  {
    if before.order == [] {
      assert before.sets == map[];
    } else {
      var classified := ClassifyUpTo(before, after, th, |before.order|);
      MergePassFusions(before, after, th, classified);
      assert Reconcile(before, after, th).fusions == MergeFrom(before, after, th, classified, |FullInverse(before, after).order|).fusions;
    }
  }

  // ---------------------------------------------------------------------------
  // The whole merge pass: retyping of the contributors
  // ---------------------------------------------------------------------------

  /** The mapping entry of old id `k`, if any. */
  function EntryOf(m: Mapping, k: int): Option<Entry> {
    if k in m.entries then Some(m.entries[k]) else None
  }

  /** The entry of old id `k` after the classification loop. */
  function Classified<T>(before: Clustering<int, T>, after: Clustering<string, T>, th: Thresholds, k: int): Option<Entry>
    requires WellFormed(after)
  {
    if k in before.sets then Verdict(before.sets[k], after, th) else None
  }

  /**
   * What one fusion into `l` does to a contributor's entry: growth and
   * drastic change become merged into `l` (keeping their metrics), a missing
   * entry becomes merged into `l` without metrics, anything else stays.
   */
  function Retyped(x: Option<Entry>, l: string): (r: Option<Entry>)
    ensures r.Some?
    ensures r.value.kind == MergedInto <==> x.None? || x.value.kind in {Growth, DrasticChange, MergedInto}
    ensures x.Some? && x.value.kind in {Evolution, Split, MergedInto} ==> r == x
  {
    match x
    case None => Some(Entry(Single(l), None, None, MergedInto))
    case Some(e) =>
      if e.kind in {DrasticChange, Growth} then Some(e.(kind := MergedInto, dest := Single(l))) else x
  }

  /** The target of the first fusion record that lists `k` as a contributor. */
  function FirstFusionOf(fs: seq<Fusion>, k: int): Option<string> {
    if fs == [] then None
    else
      var p := FirstFusionOf(fs[..|fs| - 1], k);
      if p.Some? then p
      else if k in fs[|fs| - 1].contributors then Some(fs[|fs| - 1].target)
      else None
  }

  /** The first fusion listing `k` is the one that decides its entry. */
  lemma {:induction false} FirstFusionOfIs(fs: seq<Fusion>, k: int)
    ensures FirstFusionOf(fs, k).None? <==> forall i | 0 <= i < |fs| :: k !in fs[i].contributors
    ensures FirstFusionOf(fs, k).Some? ==> exists i ::
      && 0 <= i < |fs| && k in fs[i].contributors && fs[i].target == FirstFusionOf(fs, k).value
      && forall j | 0 <= j < i :: k !in fs[j].contributors
  {
    if fs != [] {
      var init := fs[..|fs| - 1];
      FirstFusionOfIs(init, k);
      forall i | 0 <= i < |init| ensures init[i] == fs[i] {}
      if FirstFusionOf(init, k).Some? {
        var i :| && 0 <= i < |init| && k in init[i].contributors && init[i].target == FirstFusionOf(init, k).value
                 && forall j | 0 <= j < i :: k !in init[j].contributors;
        assert fs[i] == init[i];
      }
    }
  }

  /** The entry of `x` once the fusions `fs` have been applied in order. */
  function MergedEntry(x: Option<Entry>, fs: seq<Fusion>, k: int): Option<Entry> {
    match FirstFusionOf(fs, k)
    case None => x
    case Some(l) => Retyped(x, l)
  }

  lemma {:induction false} RetypeUpToLookup(m: Mapping, ids: seq<int>, l: string, n: nat, k: int)
    requires MappingOk(m) && n <= |ids|
    ensures EntryOf(RetypeUpTo(m, ids, l, n), k) == if k in ids[..n] then Retyped(EntryOf(m, k), l) else EntryOf(m, k)
  {
    if n > 0 {
      RetypeUpToLookup(m, ids, l, n - 1, k);
      assert ids[..n] == ids[..n - 1] + [ids[n - 1]];
      RetypeStepLookup(m, ids, l, n, k);
      RetypedTwice(EntryOf(m, k), l);
    }
  }

  /** Retyping contributor `ids[n - 1]` changes only its own entry, as `Retyped` says. */
  lemma RetypeStepLookup(m: Mapping, ids: seq<int>, l: string, n: nat, k: int)
    requires MappingOk(m) && 0 < n <= |ids|
    ensures var prev := RetypeUpTo(m, ids, l, n - 1);
      EntryOf(RetypeUpTo(m, ids, l, n), k) == if k == ids[n - 1] then Retyped(EntryOf(prev, k), l) else EntryOf(prev, k)
  {
  }

  /** A second fusion into the same cluster changes nothing more. */
  lemma RetypedTwice(x: Option<Entry>, l: string)
    ensures Retyped(Retyped(x, l), l) == Retyped(x, l)
  {
  }

  lemma MergedEntryAppend(x: Option<Entry>, fs: seq<Fusion>, f: Fusion, k: int)
    ensures MergedEntry(x, fs + [f], k) ==
      if k in f.contributors then Retyped(MergedEntry(x, fs, k), f.target) else MergedEntry(x, fs, k)
  {
    assert (fs + [f])[..|fs|] == fs;
  }

  /** The entry of `k` after the first `n` labels follows from its first fusion. */
  predicate LookupHolds(start: Mapping, st: MergeState, k: int) {
    EntryOf(st.mapping, k) == MergedEntry(EntryOf(start, k), st.fusions, k)
  }

  lemma LookupStep<T>(before: Clustering<int, T>, after: Clustering<string, T>, th: Thresholds, start: Mapping, st: MergeState, l: string, k: int)
    requires WellFormed(before) && WellFormed(after) && MappingOk(st.mapping)
    requires l in FullInverse(before, after).lists
    requires LookupHolds(start, st, k)
    ensures LookupHolds(start, MergeStep(before, after, th, FullInverse(before, after), st, l), k)
  {
    MergeStepFusion(before, after, th, st, l);
    var r := MergeStep(before, after, th, FullInverse(before, after), st, l);
    if MergeTriggered(before, after, th, l) {
      var f := r.fusions[|st.fusions|];
      assert r.fusions == st.fusions + [f];
      LookupAppend(start, st, r, f, k);
    }
  }

  lemma LookupAppend(start: Mapping, st: MergeState, r: MergeState, f: Fusion, k: int)
    requires MappingOk(st.mapping) && LookupHolds(start, st, k)
    requires r.fusions == st.fusions + [f] && r.mapping == RetypeUpTo(st.mapping, f.contributors, f.target, |f.contributors|)
    ensures LookupHolds(start, r, k)
  {
    RetypeUpToLookup(st.mapping, f.contributors, f.target, |f.contributors|, k);
    assert f.contributors[..|f.contributors|] == f.contributors;
    MergedEntryAppend(EntryOf(start, k), st.fusions, f, k);
  }

  lemma {:induction false} MergeFromLookup<T>(before: Clustering<int, T>, after: Clustering<string, T>, th: Thresholds, start: Mapping, n: nat, k: int)
    requires WellFormed(before) && WellFormed(after) && MappingOk(start) && n <= |FullInverse(before, after).order|
    ensures LookupHolds(start, MergeFrom(before, after, th, start, n), k)
  {
    if n == 0 {
      LookupBase(before, after, th, start, k);
    } else {
      MergeFromLookup(before, after, th, start, n - 1, k);
      LookupFromStep(before, after, th, start, n, k);
    }
  }

  lemma LookupBase<T>(before: Clustering<int, T>, after: Clustering<string, T>, th: Thresholds, start: Mapping, k: int)
    requires WellFormed(before) && WellFormed(after) && MappingOk(start)
    ensures LookupHolds(start, MergeFrom(before, after, th, start, 0), k)
  {
    assert MergeFrom(before, after, th, start, 0) == MergeState(start, []);
  }

  lemma LookupFromStep<T>(before: Clustering<int, T>, after: Clustering<string, T>, th: Thresholds, start: Mapping, n: nat, k: int)
    requires WellFormed(before) && WellFormed(after) && MappingOk(start) && 0 < n <= |FullInverse(before, after).order|
    requires LookupHolds(start, MergeFrom(before, after, th, start, n - 1), k)
    ensures LookupHolds(start, MergeFrom(before, after, th, start, n), k)
  {
    MergeFromStep(before, after, th, start, n);
    LookupStep(before, after, th, start, MergeFrom(before, after, th, start, n - 1), FullInverse(before, after).order[n - 1], k);
  }

  /**
   * The final entry of every old id: its classification, retyped by the first
   * fusion record that lists it, if any.
   */
  lemma MergedMapping<T>(before: Clustering<int, T>, after: Clustering<string, T>, th: Thresholds, k: int)
    requires WellFormed(before) && WellFormed(after)
    ensures var out := Reconcile(before, after, th);
      EntryOf(out.mapping, k) == MergedEntry(Classified(before, after, th, k), out.fusions, k)
  {
    if before.order == [] {
      assert before.sets == map[];
    } else {
      var classified := ClassifyUpTo(before, after, th, |before.order|);
      var n := |FullInverse(before, after).order|;
      MergeFromLookup(before, after, th, classified, n, k);
      ClassifiedExactly(before, after, th, k);
      assert EntryOf(classified, k) == Classified(before, after, th, k);
      assert Reconcile(before, after, th).mapping == MergeFrom(before, after, th, classified, n).mapping;
      assert Reconcile(before, after, th).fusions == MergeFrom(before, after, th, classified, n).fusions;
    }
  }

  /**
   * The retyping rules, per old id: a contributor classified as growth or
   * drastic change is merged into the first fusion target that lists it, an
   * unclassified contributor gets a merged entry without metrics, and
   * evolution and split entries, like the entries of non-contributors, stay
   * as classified.
   */
  lemma RetypingRules<T>(before: Clustering<int, T>, after: Clustering<string, T>, th: Thresholds, k: int)
    requires WellFormed(before) && WellFormed(after)
    ensures var out := Reconcile(before, after, th);
      var c := Classified(before, after, th, k);
      var first := FirstFusionOf(out.fusions, k);
      && (first.None? ==> EntryOf(out.mapping, k) == c)
      && (c.Some? && c.value.kind in {Evolution, Split} ==> EntryOf(out.mapping, k) == c)
      && (first.Some? && c.None? ==> EntryOf(out.mapping, k) == Some(Entry(Single(first.value), None, None, MergedInto)))
      && (first.Some? && c.Some? && c.value.kind in {Growth, DrasticChange} ==>
            EntryOf(out.mapping, k) == Some(c.value.(kind := MergedInto, dest := Single(first.value))))
  {
    MergedMapping(before, after, th, k);
  }

  /**
   * The disappeared list is computed before the merge pass and not revised:
   * a disappeared id keeps its place there, and has an entry only when some
   * fusion lists it, a merged entry without metrics.
   */
  lemma DisappearedNotRevised<T>(before: Clustering<int, T>, after: Clustering<string, T>, th: Thresholds, k: int)
    requires WellFormed(before) && WellFormed(after) && before.order != []
    requires k in Reconcile(before, after, th).disappeared
    ensures var out := Reconcile(before, after, th);
      var first := FirstFusionOf(out.fusions, k);
      && (first.None? ==> k !in out.mapping.entries)
      && (first.Some? ==> k in out.mapping.entries && out.mapping.entries[k] == Entry(Single(first.value), None, None, MergedInto))
  {
    DisappearedExactly(before, after, th);
    MergedMapping(before, after, th, k);
  }

  // ---------------------------------------------------------------------------
  // A relabelled partition
  // ---------------------------------------------------------------------------

  ghost predicate Disjoint<K, T>(c: Clustering<K, T>) {
    forall k1, k2 | k1 in c.sets && k2 in c.sets && k1 != k2 :: c.sets[k1] * c.sets[k2] == {}
  }

  /**
   * The new partition is the old one under new names: `name` is one-to-one,
   * gives each old cluster the label of an identical new cluster, and covers
   * every label; the clusters are disjoint and non-empty.
   */
  ghost predicate Relabelling<T>(before: Clustering<int, T>, after: Clustering<string, T>, name: map<int, string>) {
    && name.Keys == before.sets.Keys
    && (forall k | k in name :: name[k] in after.sets && after.sets[name[k]] == before.sets[k])
    && (forall k1, k2 | k1 in name && k2 in name && k1 != k2 :: name[k1] != name[k2])
    && (forall l | l in after.sets :: exists k :: k in name && name[k] == l)
    && NoEmptyCluster(after) && Disjoint(after)
  }

  /** An old cluster identical to a new one, which no other new cluster meets, evolves into it. */
  lemma IdenticalVerdict<T>(a: set<T>, after: Clustering<string, T>, th: Thresholds, l: string)
    requires WellFormed(after) && Disjoint(after) && l in after.sets && after.sets[l] == a && a != {}
    requires th.overlapGrowth <= 1.0 && th.jaccardMin <= 1.0
    ensures Verdict(a, after, th) == Some(Entry(Single(l), Some(1.0), Some(1.0), Evolution))
  {
    CandidatesExact(a, after);
    var cs := Candidates(a, after);
    assert a * after.sets[l] != {};
    assert HasTarget(cs, l);
    assert HasTarget(cs, cs[Best(cs)].target);
    assert BestLabel(a, after) == l;
    Similarity.JaccardExtremes(a, a);
    Similarity.OverlapOneIffContained(a, a);
    VerdictTiers(a, after, th);
  }

  /** Under a relabelling, an old cluster meets exactly the new cluster of its name. */
  lemma RelabelledMeets<T>(before: Clustering<int, T>, after: Clustering<string, T>, name: map<int, string>, k: int, l: string)
    requires Relabelling(before, after, name) && k in before.sets && l in after.sets
    requires before.sets[k] * after.sets[l] != {}
    ensures name[k] == l
  {
  }

  /**
   * Reconciling a partition with a relabelled copy of itself: every old id
   * evolves into its new label with Jaccard index and overlap 1, nothing
   * disappears, no label is new and there is no fusion.
   */
  lemma RelabelledPartition<T>(before: Clustering<int, T>, after: Clustering<string, T>, th: Thresholds, name: map<int, string>)
    requires WellFormed(before) && WellFormed(after) && Relabelling(before, after, name)
    requires th.overlapGrowth <= 1.0 && th.jaccardMin <= 1.0
    ensures var out := Reconcile(before, after, th);
      && out.fusions == []
      && out.disappeared == []
      && out.newLabels == []
      && forall k | k in before.sets ::
           k in out.mapping.entries && out.mapping.entries[k] == Entry(Single(name[k]), Some(1.0), Some(1.0), Evolution)
  {
    var out := Reconcile(before, after, th);
    forall k | k in before.sets ensures Verdict(before.sets[k], after, th) == Some(Entry(Single(name[k]), Some(1.0), Some(1.0), Evolution)) {
      IdenticalVerdict(before.sets[k], after, th, name[k]);
    }
    NoRelabelledFusion(before, after, th, name);
    forall k | k in before.sets
      ensures k in out.mapping.entries && out.mapping.entries[k] == Entry(Single(name[k]), Some(1.0), Some(1.0), Evolution)
    {
      MergedMapping(before, after, th, k);
    }
    if before.order == [] {
      assert name == map[];
      NoElementEmpty(after.order);
    } else {
      RelabelledLists(before, after, th, name);
    }
  }

  lemma NoRelabelledFusion<T>(before: Clustering<int, T>, after: Clustering<string, T>, th: Thresholds, name: map<int, string>)
    requires WellFormed(before) && WellFormed(after) && Relabelling(before, after, name)
    ensures Reconcile(before, after, th).fusions == []
  {
    var fs := Reconcile(before, after, th).fusions;
    forall l | l in after.sets ensures !TwoQualifiers(before, after, th, l) {
      forall k1, k2 | Qualifies(before, after, th, l, k1) && Qualifies(before, after, th, l, k2) ensures k1 == k2 {
        RelabelledMeets(before, after, name, k1, l);
        RelabelledMeets(before, after, name, k2, l);
      }
    }
    if fs != [] {
      FirstFusionQualifiers(before, after, th);
      assert false;
    }
  }

  lemma FirstFusionQualifiers<T>(before: Clustering<int, T>, after: Clustering<string, T>, th: Thresholds)
    requires WellFormed(before) && WellFormed(after) && Reconcile(before, after, th).fusions != []
    ensures var f := Reconcile(before, after, th).fusions[0];
      f.target in after.sets && TwoQualifiers(before, after, th, f.target)
  {
    FusionsExactly(before, after, th);
    assert FusionRecord(before, after, th, Reconcile(before, after, th).fusions[0]);
  }

  lemma NoElementEmpty<X>(s: seq<X>)
    requires forall x :: x !in s
    ensures s == []
  {
    if s != [] {
      Ordering.HeadIn(s);
      assert false;
    }
  }

  lemma RelabelledLists<T>(before: Clustering<int, T>, after: Clustering<string, T>, th: Thresholds, name: map<int, string>)
    requires WellFormed(before) && WellFormed(after) && Relabelling(before, after, name) && before.order != []
    requires forall k | k in before.sets :: Verdict(before.sets[k], after, th).Some? && Verdict(before.sets[k], after, th).value.dest == Single(name[k])
    ensures Reconcile(before, after, th).disappeared == []
    ensures Reconcile(before, after, th).newLabels == []
  {
    RelabelledNoneDisappear(before, after, th);
    RelabelledNoNewLabel(before, after, th, name);
  }

  lemma RelabelledNoneDisappear<T>(before: Clustering<int, T>, after: Clustering<string, T>, th: Thresholds)
    requires WellFormed(before) && WellFormed(after) && before.order != []
    requires forall k | k in before.sets :: Verdict(before.sets[k], after, th).Some?
    ensures Reconcile(before, after, th).disappeared == []
  {
    var gone := Reconcile(before, after, th).disappeared;
    DisappearedExactly(before, after, th);
    forall k ensures k !in gone {
      if k in before.sets {
        assert Verdict(before.sets[k], after, th).Some?;
      }
    }
    NoElementEmpty(gone);
  }

  lemma RelabelledNoNewLabel<T>(before: Clustering<int, T>, after: Clustering<string, T>, th: Thresholds, name: map<int, string>)
    requires WellFormed(before) && WellFormed(after) && Relabelling(before, after, name) && before.order != []
    requires forall k | k in before.sets :: Verdict(before.sets[k], after, th).Some? && Verdict(before.sets[k], after, th).value.dest == Single(name[k])
    ensures Reconcile(before, after, th).newLabels == []
  {
    RelabelledAllPointed(before, after, th, name);
    NewLabelsExactly(before, after, th);
    NoElementEmpty(Reconcile(before, after, th).newLabels);
  }

  lemma RelabelledAllPointed<T>(before: Clustering<int, T>, after: Clustering<string, T>, th: Thresholds, name: map<int, string>)
    requires WellFormed(before) && WellFormed(after) && Relabelling(before, after, name) && before.order != []
    requires forall k | k in before.sets :: Verdict(before.sets[k], after, th).Some? && Verdict(before.sets[k], after, th).value.dest == Single(name[k])
    ensures forall l | l in after.sets :: PointsTo(ClassifyUpTo(before, after, th, |before.order|), l)
  {
    var c := ClassifyUpTo(before, after, th, |before.order|);
    forall l | l in after.sets ensures PointsTo(c, l) {
      var k :| k in name && name[k] == l;
      ClassifiedExactly(before, after, th, k);
      assert l in DestLabels(c.entries[k].dest);
    }
  }
}
