/**
 * The synchronizer's apply step against the store: fusion survivors keep
 * their cluster, the removal set is unassigned and deleted, each created
 * label gets one new named cluster, and every coredump of the new result is
 * assigned the cluster its label resolves to.
 */
module Synchronizer {
  import opened Wrappers
  import Text
  import opened MixedSpec
  import opened SyncPlan
  import opened Store
  import opened Creation
  import opened Sets

  /**
   * The reassignment step on values: a coredump of the new result whose label
   * resolves to an existing cluster is assigned it; every other coredump keeps
   * its cluster, and the store refuses a resolved cluster that does not exist.
   */
  function Reassigned(clusterOf: map<int, Option<int>>, names: map<int, string>, final: map<string, Option<int>>,
                      newAssign: map<int, string>, done: set<int>): (r: map<int, Option<int>>)
    ensures r.Keys == clusterOf.Keys
  {
    map d | d in clusterOf ::
      if d in done && d in newAssign && Resolve(final, newAssign[d]).Some? && Resolve(final, newAssign[d]).value in names
      then Some(Resolve(final, newAssign[d]).value)
      else clusterOf[d]
  }

  // ---------------------------------------------------------------------------
  // The store loops
  // ---------------------------------------------------------------------------

  /** The removal loop: each id is unassigned from its coredumps, then deleted. */
  method RemoveClusters(store: ClusterStore, ids: set<int>)
    requires store.Valid()
    modifies store
    ensures store.Valid()
    ensures store.names == old(store.names) - ids
    ensures store.clusterOf == Unassigned(old(store.clusterOf), ids)
    ensures store.rawPath == old(store.rawPath) && store.nextId == old(store.nextId)
  {
    ghost var names0, clusterOf0 := store.names, store.clusterOf;
    var remaining := ids;
    ghost var done: set<int> := {};
    while remaining != {}
      invariant done + remaining == ids && done !! remaining
      invariant store.Valid()
      invariant store.names == names0 - done
      invariant store.clusterOf == Unassigned(clusterOf0, done)
      invariant store.rawPath == old(store.rawPath) && store.nextId == old(store.nextId)
      decreases |remaining|
    {
      ghost var w := Element(remaining);
      var r :| r in remaining;
      UnassignedMore(clusterOf0, done, r);
      DroppedMore(names0, done, r);
      store.UnassignCluster(r);
      UnassignedFree(Unassigned(clusterOf0, done), r);
      store.DeleteCluster(r);
      remaining, done := remaining - {r}, done + {r};
    }
  }

  /**
   * One label of the creation loop: its name (the empty-cluster name, or the
   * name generated from one of its coredumps) and the `add_cluster` call.
   */
  method CreateOne(store: ClusterStore, l: string, members: map<string, set<int>>, now: int)
    returns (id: Option<int>, name: string)
    requires store.Valid()
    modifies store
    ensures store.Valid()
    ensures NamedAsSource(l, name, members, store.rawPath, now)
    ensures name in old(store.names).Values ==> id == None && store.names == old(store.names) && store.nextId == old(store.nextId)
    ensures name !in old(store.names).Values ==>
      id == Some(old(store.nextId)) && store.names == old(store.names)[old(store.nextId) := name] && store.nextId == old(store.nextId) + 1
    ensures store.clusterOf == old(store.clusterOf) && store.rawPath == old(store.rawPath)
  {
    if l !in members || members[l] == {} {
      name := EmptyName(l, now);
    } else {
      ghost var w := Element(members[l]);
      var rep :| rep in members[l];
      name := GeneratedName(store.RawPathOf(rep), now);
      assert store.RawPathOf(rep) == RawOf(store.rawPath, rep);
    }
    id := store.AddCluster(name);
  }

  /**
   * The creation loop: one `add_cluster` per label; a name already taken
   * makes the store refuse it, and the label then maps to None.
   */
  method CreateClusters(store: ClusterStore, labels: set<string>, members: map<string, set<int>>, now: int)
    returns (created: map<string, Option<int>>, chosen: map<string, string>)
    requires store.Valid()
    modifies store
    ensures store.Valid()
    ensures CreatedOk(store.names, store.rawPath, store.nextId, old(store.names), old(store.nextId), labels, created, chosen, members, now)
    ensures old(store.nextId) <= store.nextId
    ensures store.clusterOf == old(store.clusterOf) && store.rawPath == old(store.rawPath)
  {
    ghost var names0, id0 := store.names, store.nextId;
    created, chosen := map[], map[];
    var remaining := labels;
    ghost var done: set<string> := {};
    assert CreatedIds(created) == {};
    while remaining != {}
      invariant remaining <= labels && done == labels - remaining
      invariant store.Valid()
      invariant id0 <= store.nextId
      invariant store.clusterOf == old(store.clusterOf) && store.rawPath == old(store.rawPath)
      invariant CreatedOk(store.names, store.rawPath, store.nextId, names0, id0, done, created, chosen, members, now)
      decreases |remaining|
    {
      ghost var w := Element(remaining);
      var l :| l in remaining;
      ghost var names, nextId := store.names, store.nextId;
      var id, name := CreateOne(store, l, members, now);
      CreatedStep(names, store.rawPath, nextId, names0, id0, done, created, chosen, members, now,
                  l, name, id, store.names, store.nextId);
      created, chosen := created[l := id], chosen[l := name];
      MovedOne(labels, remaining, done, l);
      remaining, done := remaining - {l}, done + {l};
    }
    AllMoved(labels, done);
  }

  /** The reassignment loop over the coredumps of the new result. */
  method Reassign(store: ClusterStore, final: map<string, Option<int>>, newAssign: map<int, string>)
    requires store.Valid()
    modifies store
    ensures store.Valid()
    ensures store.clusterOf == Reassigned(old(store.clusterOf), old(store.names), final, newAssign, newAssign.Keys)
    ensures store.names == old(store.names) && store.rawPath == old(store.rawPath) && store.nextId == old(store.nextId)
  {
    ghost var clusterOf0, names0 := store.clusterOf, store.names;
    var remaining := newAssign.Keys;
    ghost var done: set<int> := {};
    while remaining != {}
      invariant remaining <= newAssign.Keys && done == newAssign.Keys - remaining
      invariant store.Valid()
      invariant store.clusterOf == Reassigned(clusterOf0, names0, final, newAssign, done)
      invariant store.names == names0 && store.rawPath == old(store.rawPath) && store.nextId == old(store.nextId)
      decreases |remaining|
    {
      ghost var w := Element(remaining);
      var d :| d in remaining;
      var target := Resolve(final, newAssign[d]);
      ReassignedStep(clusterOf0, names0, final, newAssign, done, d);
      if target.Some? {
        store.AssignCluster(d, target.value);
      }
      MovedOne(newAssign.Keys, remaining, done, d);
      remaining, done := remaining - {d}, done + {d};
    }
    AllMoved(newAssign.Keys, done);
  }

  /** Reassigning one more coredump. */
  lemma ReassignedStep(clusterOf: map<int, Option<int>>, names: map<int, string>, final: map<string, Option<int>>,
                       newAssign: map<int, string>, done: set<int>, d: int)
    requires d in newAssign && d !in done
    ensures var prev := Reassigned(clusterOf, names, final, newAssign, done);
      var t := Resolve(final, newAssign[d]);
      Reassigned(clusterOf, names, final, newAssign, done + {d}) ==
        if d in prev && t.Some? && t.value in names then prev[d := Some(t.value)] else prev
  {
  }

  // ---------------------------------------------------------------------------
  // The apply step
  // ---------------------------------------------------------------------------

  /**
   * The first three phases of `aplicar_resultados_reconciliacao`: the fusion
   * loop, the removal loop and the creation loop.
   */
  method RemoveAndCreate(store: ClusterStore, m: Mapping, novos: seq<string>, gone: seq<int>, fs: seq<Fusion>,
                         members: map<string, set<int>>, now: int)
    returns (p: Plan, removed: set<int>, created: map<string, Option<int>>, chosen: map<string, string>)
    requires store.Valid() && MappingOk(m)
    modifies store
    ensures store.Valid()
    ensures p == PlanUpTo(ClaimsOf(m), fs, |fs|) && removed == ToRemove(gone, p)
    ensures CreatedOk(store.names, store.rawPath, store.nextId, old(store.names) - removed, old(store.nextId),
                      ToCreate(novos, p), created, chosen, members, now)
    ensures old(store.nextId) <= store.nextId
    ensures store.clusterOf == Unassigned(old(store.clusterOf), removed) && store.rawPath == old(store.rawPath)
  {
    p := ProcessFusions(ClaimsOf(m), fs);
    removed := ToRemove(gone, p);
    RemoveClusters(store, removed);
    created, chosen := CreateClusters(store, ToCreate(novos, p), members, now);
  }

  /**
   * `aplicar_resultados_reconciliacao` as written: survivors, removal,
   * creation, the identity map from the created ids and every single-label
   * mapping entry, then one reassignment per coredump of the new result.
   */
  method Apply(store: ClusterStore, m: Mapping, novos: seq<string>, gone: seq<int>, fs: seq<Fusion>,
               newAssign: map<int, string>, members: map<string, set<int>>, now: int)
    returns (p: Plan, removed: set<int>, created: map<string, Option<int>>, chosen: map<string, string>,
             final: map<string, Option<int>>)
    requires store.Valid() && MappingOk(m)
    modifies store
    ensures store.Valid()
    ensures p == PlanUpTo(ClaimsOf(m), fs, |fs|) && removed == ToRemove(gone, p)
    ensures CreatedOk(store.names, store.rawPath, store.nextId, old(store.names) - removed, old(store.nextId),
                      ToCreate(novos, p), created, chosen, members, now)
    ensures final == IdentityUpTo(created, p.claims, |p.claims.order|)
    ensures store.clusterOf == Reassigned(Unassigned(old(store.clusterOf), removed), store.names, final, newAssign, newAssign.Keys)
    ensures store.rawPath == old(store.rawPath)
  {
    p, removed, created, chosen := RemoveAndCreate(store, m, novos, gone, fs, members, now);
    final := BuildIdentity(created, p.claims);
    Reassign(store, final, newAssign);
  }

  /**
   * The apply step with the corrected identity map: a removed cluster claims
   * no label, so every coredump of the new result whose label resolves is
   * assigned exactly the cluster it resolves to.
   */
  method ApplyLive(store: ClusterStore, m: Mapping, novos: seq<string>, gone: seq<int>, fs: seq<Fusion>,
                   newAssign: map<int, string>, members: map<string, set<int>>, now: int)
    returns (p: Plan, removed: set<int>, created: map<string, Option<int>>, chosen: map<string, string>,
             final: map<string, Option<int>>)
    requires store.Valid() && MappingOk(m)
    requires forall k | k in m.entries :: k in store.names
    requires forall x | x in gone :: x in store.names
    requires forall i, x | 0 <= i < |fs| && x in fs[i].contributors :: x in store.names
    modifies store
    ensures store.Valid()
    ensures p == PlanUpTo(ClaimsOf(m), fs, |fs|) && removed == ToRemove(gone, p)
    ensures CreatedOk(store.names, store.rawPath, store.nextId, old(store.names) - removed, old(store.nextId),
                      ToCreate(novos, p), created, chosen, members, now)
    ensures final == LiveIdentityUpTo(created, p.claims, removed, |p.claims.order|)
    ensures store.clusterOf == Reassigned(Unassigned(old(store.clusterOf), removed), store.names, final, newAssign, newAssign.Keys)
    ensures forall d | d in newAssign && d in old(store.clusterOf) && Resolve(final, newAssign[d]).Some? ::
      store.clusterOf[d] == Resolve(final, newAssign[d])
    ensures store.rawPath == old(store.rawPath)
  {
    ghost var names0, id0 := store.names, store.nextId;
    p, removed, created, chosen := RemoveAndCreate(store, m, novos, gone, fs, members, now);
    final := BuildLiveIdentity(created, p.claims, removed);
    LiveTargets(ClaimsOf(m), fs, gone, names0, id0, removed, store.names, created);
    Reassign(store, final, newAssign);
  }

  /** Every id a plan removes is an old cluster when every id it reads is. */
  lemma RemovedAreOld(start: Claims, fs: seq<Fusion>, gone: seq<int>, names0: map<int, string>, x: int)
    requires ClaimsOk(start)
    requires forall y | y in gone :: y in names0
    requires forall i, y | 0 <= i < |fs| && y in fs[i].contributors :: y in names0
    requires x in ToRemove(gone, PlanUpTo(start, fs, |fs|))
    ensures x in names0
  {
    RemovedExactly(start, gone, fs, x);
    if x !in gone {
      var i :| 0 <= i < |fs| && NonSurvivor(fs[i], x);
    }
  }

  /** Every entry the fusion loop leaves is an old cluster when every id it reads is. */
  lemma ClaimantsAreOld(start: Claims, fs: seq<Fusion>, names0: map<int, string>, k: int)
    requires ClaimsOk(start)
    requires forall y | y in start.entries :: y in names0
    requires forall i, y | 0 <= i < |fs| && y in fs[i].contributors :: y in names0
    requires k in PlanUpTo(start, fs, |fs|).claims.entries
    ensures k in names0
  {
    PlanClaims(start, fs, |fs|, k);
    var last := LastSurvived(fs, k, |fs|);
    if last.Some? {
      assert k in fs[last.value].contributors;
    }
  }

  /**
   * With the corrected identity map, a resolved label names a cluster that
   * exists after removal and creation: a created one, or an old one the
   * removal step kept.
   */
  lemma LiveTargets(start: Claims, fs: seq<Fusion>, gone: seq<int>, names0: map<int, string>, id0: int,
                    removed: set<int>, names: map<int, string>, created: map<string, Option<int>>)
    requires ClaimsOk(start)
    requires forall y | y in start.entries :: y in names0
    requires forall y | y in gone :: y in names0
    requires forall i, y | 0 <= i < |fs| && y in fs[i].contributors :: y in names0
    requires forall c | c in names0 :: c < id0
    requires removed == ToRemove(gone, PlanUpTo(start, fs, |fs|))
    requires forall l | l in created && created[l].Some? :: id0 <= created[l].value && created[l].value in names
    requires Grown(names, names0 - removed, created)
    ensures var c := PlanUpTo(start, fs, |fs|).claims;
      forall t | Resolve(LiveIdentityUpTo(created, c, removed, |c.order|), t).Some? ::
        Resolve(LiveIdentityUpTo(created, c, removed, |c.order|), t).value in names
  {
    var c := PlanUpTo(start, fs, |fs|).claims;
    forall u | u in created && created[u].Some? ensures created[u].value !in removed {
      if created[u].value in removed {
        RemovedAreOld(start, fs, gone, names0, created[u].value);
      }
    }
    forall t | Resolve(LiveIdentityUpTo(created, c, removed, |c.order|), t).Some?
      ensures Resolve(LiveIdentityUpTo(created, c, removed, |c.order|), t).value in names
    {
      LiveIdentityIsLive(created, c, removed, |c.order|, t);
      var r := Resolve(LiveIdentityUpTo(created, c, removed, |c.order|), t);
      if !(t in created && created[t] == r) {
        ClaimantsAreOld(start, fs, names0, r.value);
        assert r.value in names0 - removed;
      }
    }
  }

  // ---------------------------------------------------------------------------
  // The stale identity, in the store
  // ---------------------------------------------------------------------------

  /**
   * Old clusters 1 (coredump 10) and 2 (coredump 11) fuse into label "a".
   * As written, "a" resolves to the deleted cluster 2, the store refuses the
   * assignment, and coredump 11 is left with no cluster at all.
   */
  lemma StaleIdentityOrphans()
    ensures ClaimsOk(MergedPairClaims())
    ensures var p := PlanUpTo(MergedPairClaims(), MergedPairFusions(), 1);
      var removed := ToRemove([], p);
      var final := IdentityUpTo(map[], p.claims, |p.claims.order|);
      Reassigned(Unassigned(map[10 := Some(1), 11 := Some(2)], removed), map[1 := "Cluster_x"], final,
                 map[10 := "a", 11 := "a"], {10, 11})
        == map[10 := Some(1), 11 := None]
  {
    StaleIdentity();
    var p := PlanUpTo(MergedPairClaims(), MergedPairFusions(), 1);
    var u := Unassigned(map[10 := Some(1), 11 := Some(2)], {2});
    assert u == map[10 := Some(1), 11 := None];
  }

  /** With the corrected identity map both coredumps end up in the survivor. */
  lemma LiveIdentityReunites()
    ensures ClaimsOk(MergedPairClaims())
    ensures var p := PlanUpTo(MergedPairClaims(), MergedPairFusions(), 1);
      var removed := ToRemove([], p);
      var final := LiveIdentityUpTo(map[], p.claims, removed, |p.claims.order|);
      Reassigned(Unassigned(map[10 := Some(1), 11 := Some(2)], removed), map[1 := "Cluster_x"], final,
                 map[10 := "a", 11 := "a"], {10, 11})
        == map[10 := Some(1), 11 := Some(1)]
  {
    LiveIdentityKeepsSurvivor();
    StaleIdentity();
    var u := Unassigned(map[10 := Some(1), 11 := Some(2)], {2});
    assert u == map[10 := Some(1), 11 := None];
  }
}
