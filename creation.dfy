/**
 * Naming and bookkeeping of the clusters the synchronizer creates: the name
 * a new label gets, and what the creation loop guarantees after each label.
 */
module Creation {
  import opened Wrappers
  import Text
  import opened Sets

  // ---------------------------------------------------------------------------
  // Names of new clusters
  // ---------------------------------------------------------------------------

  /**
   * `gerar_nome_cluster_de_arquivo`: "Cluster_" and the stem of the raw dump
   * path of the member, or "Cluster_Inesperado_" and the time when the member
   * is unknown or its path is empty.
   */
  function GeneratedName(raw: Option<string>, now: int): (r: string)
    ensures raw.Some? && raw.value != "" ==>
      |r| >= 8 && r[..8] == "Cluster_" && r[8..] == Text.Stem(Text.Basename(raw.value))
    ensures !(raw.Some? && raw.value != "") ==> r == "Cluster_Inesperado_" + Text.IntToString(now)
  {
    if raw.Some? && raw.value != "" then "Cluster_" + Text.Stem(Text.Basename(raw.value))
    else "Cluster_Inesperado_" + Text.IntToString(now)
  }

  /** The stem of a base name has no '/'. */
  lemma StemOfBasename(path: string)
    ensures '/' !in Text.Stem(Text.Basename(path))
  {
    var b := Text.Basename(path);
    Text.BasenameShape(path);
    var s := Text.Stem(b);
    if s != b {
      Text.PrefixLacks(b, |s|, '/');
    }
  }

  /**
   * A name generated from a file is "Cluster_" followed by a prefix of the
   * file's base name (the part after its last '/'), so it holds no '/'.
   */
  lemma GeneratedNameShape(raw: Option<string>, now: int)
    requires raw.Some? && raw.value != ""
    ensures var r := GeneratedName(raw, now); var b := Text.Basename(raw.value);
      && |r| >= 8 && r[..8] == "Cluster_"
      && '/' !in r[8..] && r[8..] <= b && b == raw.value[|raw.value| - |b|..]
  {
    var b := Text.Basename(raw.value);
    Text.BasenameShape(raw.value);
    StemOfBasename(raw.value);
    var r := GeneratedName(raw, now);
    assert r[8..] == Text.Stem(b);
  }

  /** The name of a created label that has no coredump. */
  function EmptyName(l: string, now: int): string {
    "Cluster_Vazio_" + l + "_" + Text.IntToString(now)
  }

  /** `get_coredump_info_by_id(d)[0]` against a snapshot of the raw paths. */
  function RawOf(rawPath: map<int, string>, d: int): Option<string> {
    if d in rawPath then Some(rawPath[d]) else None
  }

  /**
   * The name chosen for created label `l`: the empty-cluster name for a label
   * without coredumps, else the name generated from one of its coredumps.
   */
  ghost predicate NamedAsSource(l: string, name: string, members: map<string, set<int>>, rawPath: map<int, string>, now: int) {
    if l !in members || members[l] == {} then name == EmptyName(l, now)
    else exists rep :: rep in members[l] && name == GeneratedName(RawOf(rawPath, rep), now)
  }

  /** The ids the creation step handed out. */
  function CreatedIds(created: map<string, Option<int>>): set<int> {
    set l | l in created && created[l].Some? :: created[l].value
  }

  /** The labels handled so far are exactly the keys of both result maps. */
  predicate Tracked(done: set<string>, created: map<string, Option<int>>, chosen: map<string, string>) {
    created.Keys == done && chosen.Keys == done
  }

  /** Every handled label got a name chosen as the source chooses it. */
  ghost predicate Named(done: set<string>, chosen: map<string, string>, members: map<string, set<int>>,
                        rawPath: map<int, string>, now: int)
  {
    forall l | l in done && l in chosen :: NamedAsSource(l, chosen[l], members, rawPath, now)
  }

  /** A label the store accepted has a fresh id that now carries its name. */
  predicate FreshIds(names: map<int, string>, nextId: int, id0: int, done: set<string>,
                     created: map<string, Option<int>>, chosen: map<string, string>)
  {
    forall l | l in done && l in created && l in chosen && created[l].Some? ::
      id0 <= created[l].value < nextId && created[l].value in names && names[created[l].value] == chosen[l]
  }

  /** A label the store refused has a name some cluster already carries. */
  predicate Refused(names: map<int, string>, done: set<string>,
                    created: map<string, Option<int>>, chosen: map<string, string>)
  {
    forall l | l in done && l in created && l in chosen && created[l].None? :: chosen[l] in names.Values
  }

  /** No two labels got the same id. */
  predicate DistinctIds(done: set<string>, created: map<string, Option<int>>) {
    forall l1, l2 | l1 in done && l2 in done && l1 in created && l2 in created && l1 != l2 && created[l1].Some? && created[l2].Some? ::
      created[l1].value != created[l2].value
  }

  /** The clusters are the old ones, unchanged, and the created ones. */
  predicate Grown(names: map<int, string>, names0: map<int, string>, created: map<string, Option<int>>) {
    && names.Keys == names0.Keys + CreatedIds(created)
    && (forall c | c in names0 :: c in names && names[c] == names0[c])
  }

  /**
   * What the creation loop guarantees after labels `done`, from names `names0`
   * and counter `id0`, in the store state (names, rawPath, nextId).
   */
  ghost predicate CreatedOk(names: map<int, string>, rawPath: map<int, string>, nextId: int,
                            names0: map<int, string>, id0: int, done: set<string>,
                            created: map<string, Option<int>>, chosen: map<string, string>,
                            members: map<string, set<int>>, now: int)
  {
    && Tracked(done, created, chosen)
    && Named(done, chosen, members, rawPath, now)
    && FreshIds(names, nextId, id0, done, created, chosen)
    && Refused(names, done, created, chosen)
    && DistinctIds(done, created)
    && Grown(names, names0, created)
  }

  /** An accepted `add_cluster` hands out a fresh id: the next one. */
  lemma AcceptedFresh(names: map<int, string>, nextId: int, id0: int, done: set<string>,
                      created: map<string, Option<int>>, chosen: map<string, string>, l: string, name: string)
    requires Tracked(done, created, chosen) && l !in done
    requires FreshIds(names, nextId, id0, done, created, chosen)
    requires id0 <= nextId
    ensures Tracked(done + {l}, created[l := Some(nextId)], chosen[l := name])
    ensures FreshIds(names[nextId := name], nextId + 1, id0, done + {l}, created[l := Some(nextId)], chosen[l := name])
  {
  }

  /** An accepted `add_cluster` keeps the names refused labels ran into. */
  lemma AcceptedRefused(names: map<int, string>, nextId: int, done: set<string>,
                        created: map<string, Option<int>>, chosen: map<string, string>, l: string, name: string)
    requires Tracked(done, created, chosen) && l !in done
    requires Refused(names, done, created, chosen)
    requires nextId !in names
    ensures Refused(names[nextId := name], done + {l}, created[l := Some(nextId)], chosen[l := name])
  {
    var created', chosen', names' := created[l := Some(nextId)], chosen[l := name], names[nextId := name];
    forall l2 | l2 in done + {l} && created'[l2].None? ensures chosen'[l2] in names'.Values {
      assert l2 in done && created[l2].None?;
      var c := KeyOf(names, chosen[l2]);
      assert names'[c] == chosen'[l2];
    }
  }

  /** The id an accepted `add_cluster` hands out is no other label's. */
  lemma AcceptedDistinct(names: map<int, string>, nextId: int, id0: int, done: set<string>,
                         created: map<string, Option<int>>, chosen: map<string, string>, l: string)
    requires Tracked(done, created, chosen) && l !in done
    requires FreshIds(names, nextId, id0, done, created, chosen) && DistinctIds(done, created)
    ensures DistinctIds(done + {l}, created[l := Some(nextId)])
  {
  }

  /** An accepted `add_cluster` adds its id and leaves the old clusters alone. */
  lemma AcceptedGrown(names: map<int, string>, nextId: int, names0: map<int, string>, id0: int,
                      created: map<string, Option<int>>, l: string, name: string)
    requires Grown(names, names0, created) && l !in created
    requires forall c | c in names0 :: c < id0
    requires id0 <= nextId
    ensures Grown(names[nextId := name], names0, created[l := Some(nextId)])
  {
    CreatedIdsAdd(created, l, Some(nextId));
    forall c | c in names0 ensures c in names[nextId := name] && names[nextId := name][c] == names0[c] {
      assert c < nextId;
    }
  }

  /** A refused `add_cluster` keeps the guarantees about accepted labels. */
  lemma RefusedStep(names: map<int, string>, nextId: int, names0: map<int, string>, id0: int, done: set<string>,
                    created: map<string, Option<int>>, chosen: map<string, string>, l: string, name: string)
    requires Tracked(done, created, chosen) && l !in done
    requires FreshIds(names, nextId, id0, done, created, chosen) && Refused(names, done, created, chosen)
    requires DistinctIds(done, created) && Grown(names, names0, created)
    requires name in names.Values
    ensures var created', chosen', done' := created[l := None], chosen[l := name], done + {l};
      && Tracked(done', created', chosen')
      && FreshIds(names, nextId, id0, done', created', chosen')
      && Refused(names, done', created', chosen')
      && DistinctIds(done', created')
      && Grown(names, names0, created')
  {
    CreatedIdsAdd(created, l, None);
  }

  /** The name chosen for one more label keeps every handled label's name. */
  lemma NamedStep(done: set<string>, chosen: map<string, string>, members: map<string, set<int>>,
                  rawPath: map<int, string>, now: int, l: string, name: string)
    requires done <= chosen.Keys && Named(done, chosen, members, rawPath, now)
    requires l !in done && NamedAsSource(l, name, members, rawPath, now)
    ensures Named(done + {l}, chosen[l := name], members, rawPath, now)
  {
  }

  /** All of the creation loop's guarantees survive one more label. */
  lemma CreatedStep(names: map<int, string>, rawPath: map<int, string>, nextId: int,
                    names0: map<int, string>, id0: int, done: set<string>,
                    created: map<string, Option<int>>, chosen: map<string, string>,
                    members: map<string, set<int>>, now: int,
                    l: string, name: string, id: Option<int>, names': map<int, string>, nextId': int)
    requires CreatedOk(names, rawPath, nextId, names0, id0, done, created, chosen, members, now)
    requires l !in done && NamedAsSource(l, name, members, rawPath, now)
    requires (forall c | c in names0 :: c < id0) && id0 <= nextId && nextId !in names
    requires name in names.Values ==> id == None && names' == names && nextId' == nextId
    requires name !in names.Values ==> id == Some(nextId) && names' == names[nextId := name] && nextId' == nextId + 1
    ensures CreatedOk(names', rawPath, nextId', names0, id0, done + {l}, created[l := id], chosen[l := name], members, now)
  {
    NamedStep(done, chosen, members, rawPath, now, l, name);
    if name in names.Values {
      RefusedStep(names, nextId, names0, id0, done, created, chosen, l, name);
    } else {
      AcceptedFresh(names, nextId, id0, done, created, chosen, l, name);
      AcceptedRefused(names, nextId, done, created, chosen, l, name);
      AcceptedDistinct(names, nextId, id0, done, created, chosen, l);
      AcceptedGrown(names, nextId, names0, id0, created, l, name);
    }
  }

  /** Recording one more label adds its id, if any, to the handed-out ids. */
  lemma CreatedIdsAdd(created: map<string, Option<int>>, l: string, id: Option<int>)
    requires l !in created
    ensures CreatedIds(created[l := id]) == CreatedIds(created) + (if id.Some? then {id.value} else {})
  {
    var created' := created[l := id];
    forall x | x in CreatedIds(created') ensures x in CreatedIds(created) + (if id.Some? then {id.value} else {}) {
      var l2 := IdOwner(created', x);
      if l2 != l {
        assert created[l2].value == x;
      }
    }
    forall x | x in CreatedIds(created) ensures x in CreatedIds(created') {
      var l2 := IdOwner(created, x);
      assert created'[l2] == created[l2];
    }
    if id.Some? {
      assert created'[l].value == id.value;
    }
  }

  /** A handed-out id belongs to some label. */
  lemma IdOwner(created: map<string, Option<int>>, x: int) returns (l: string)
    requires x in CreatedIds(created)
    ensures l in created && created[l] == Some(x)
  {
    l :| l in created && created[l].Some? && created[l].value == x;
  }
}
