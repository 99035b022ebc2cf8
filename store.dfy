/**
 * The part of the SQLite store the synchronizer drives: the clusters table
 * (id -> unique name, ids handed out by AUTOINCREMENT) and, per coredump, its
 * nullable `cluster_id` foreign key and its `raw_dump_path`. Every connection
 * turns foreign keys on, and the query helper swallows integrity errors, so a
 * statement the constraints refuse simply changes nothing.
 */
module Store {
  import opened Wrappers

  /** `UPDATE coredumps SET cluster_id = NULL WHERE cluster_id IN ids`, as a value. */
  function Unassigned(clusterOf: map<int, Option<int>>, ids: set<int>): (r: map<int, Option<int>>)
    ensures r.Keys == clusterOf.Keys
    ensures forall d | d in r :: r[d] == (if clusterOf[d].Some? && clusterOf[d].value in ids then None else clusterOf[d])
  {
    map d | d in clusterOf :: if clusterOf[d].Some? && clusterOf[d].value in ids then None else clusterOf[d]
  }

  /** Clearing one more cluster id is clearing the larger set. */
  lemma UnassignedMore(clusterOf: map<int, Option<int>>, ids: set<int>, c: int)
    ensures Unassigned(Unassigned(clusterOf, ids), {c}) == Unassigned(clusterOf, ids + {c})
  {
  }

  /** Once cluster c is cleared, no coredump points at it. */
  lemma UnassignedFree(clusterOf: map<int, Option<int>>, c: int)
    ensures forall d | d in Unassigned(clusterOf, {c}) :: Unassigned(clusterOf, {c})[d] != Some(c)
  {
  }

  class ClusterStore {
    /** clusters: cluster_id -> name. */
    var names: map<int, string>
    /** coredumps: coredump_id -> cluster_id, None for NULL. */
    var clusterOf: map<int, Option<int>>
    /** coredumps: coredump_id -> raw_dump_path. */
    var rawPath: map<int, string>
    /** The next id AUTOINCREMENT hands out; never reused. */
    var nextId: int

    /** Ids below the counter, the foreign key holds, one raw path per coredump. */
    ghost predicate Valid()
      reads this
    {
      && (forall c | c in names :: c < nextId)
      && (forall d | d in clusterOf && clusterOf[d].Some? :: clusterOf[d].value in names)
      && rawPath.Keys == clusterOf.Keys
    }

    /** `get_coredump_info_by_id(d)[0]`: the raw dump path, None for an unknown coredump. */
    function RawPathOf(d: int): (r: Option<string>)
      reads this
      ensures r.Some? <==> d in rawPath
      ensures r.Some? ==> r.value == rawPath[d]
    {
      if d in rawPath then Some(rawPath[d]) else None
    }

    /**
     * `add_cluster(name)`: a name already present violates UNIQUE, which gives
     * None and no change; otherwise the row gets the next id.
     */
    method AddCluster(name: string) returns (id: Option<int>)
      requires Valid()
      modifies this
      ensures Valid()
      ensures name in old(names).Values ==> id == None && names == old(names) && nextId == old(nextId)
      ensures name !in old(names).Values ==>
        id == Some(old(nextId)) && names == old(names)[old(nextId) := name] && nextId == old(nextId) + 1
      ensures clusterOf == old(clusterOf) && rawPath == old(rawPath)
    {
      if name in names.Values {
        return None;
      }
      id := Some(nextId);
      names := names[nextId := name];
      nextId := nextId + 1;
    }

    /** `unassign_cluster_from_coredumps(c)`: every coredump of cluster c gets NULL. */
    method UnassignCluster(c: int)
      requires Valid()
      modifies this
      ensures Valid()
      ensures clusterOf == Unassigned(old(clusterOf), {c})
      ensures names == old(names) && rawPath == old(rawPath) && nextId == old(nextId)
    {
      clusterOf := Unassigned(clusterOf, {c});
    }

    /** `delete_cluster(c)`: refused by the foreign key while a coredump still points at c. */
    method DeleteCluster(c: int)
      requires Valid()
      modifies this
      ensures Valid()
      ensures (exists d :: d in old(clusterOf) && old(clusterOf)[d] == Some(c)) ==> names == old(names)
      ensures (forall d | d in old(clusterOf) :: old(clusterOf)[d] != Some(c)) ==> names == old(names) - {c}
      ensures clusterOf == old(clusterOf) && rawPath == old(rawPath) && nextId == old(nextId)
    {
      if exists d :: d in clusterOf && clusterOf[d] == Some(c) {
        return;
      }
      names := names - {c};
    }

    /**
     * `assign_cluster_to_coredump(d, c)`: no row changes for an unknown
     * coredump, and the foreign key refuses a cluster that does not exist.
     */
    method AssignCluster(d: int, c: int)
      requires Valid()
      modifies this
      ensures Valid()
      ensures clusterOf == if d in old(clusterOf) && c in old(names) then old(clusterOf)[d := Some(c)] else old(clusterOf)
      ensures names == old(names) && rawPath == old(rawPath) && nextId == old(nextId)
    {
      if d in clusterOf && c in names {
        clusterOf := clusterOf[d := Some(c)];
      }
    }
  }
}
