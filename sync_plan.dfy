/**
 * The bookkeeping half of the synchronizer's apply step, on values: the
 * fusion loop that picks survivors and overwrites their mapping entries, the
 * sets of clusters to remove and to create, and the identity map from new
 * labels to persistent cluster ids.
 */
module SyncPlan {
  import opened Wrappers
  import opened MixedSpec
  import Ordering

  /** The `tipo` of a mapping entry: the reconciler's kind, or the fusion step's 'fusao'. */
  datatype Tag = Reconciled(kind: Kind) | Fused

  /** A mapping entry as the synchronizer reads it: `novo_id` and `tipo`. */
  datatype Claim = Claim(dest: Dest, tag: Tag)

  /** The mapping dict: old id -> claim, with the dict's insertion order. */
  datatype Claims = Claims(order: seq<int>, entries: map<int, Claim>)

  predicate ClaimsOk(m: Claims) {
    && Ordering.Distinct(m.order)
    && (forall k | k in m.entries :: k in m.order)
    && (forall i | 0 <= i < |m.order| :: m.order[i] in m.entries)
  }

  /** The reconciler's mapping, as the synchronizer receives it. */
  function ClaimsOf(m: Mapping): (r: Claims)
    requires MappingOk(m)
    ensures ClaimsOk(r) && r.order == m.order && r.entries.Keys == m.entries.Keys
  {
    Claims(m.order, map k | k in m.entries :: Claim(m.entries[k].dest, Reconciled(m.entries[k].kind)))
  }

  /** `mapping[k] = c`: a new key goes to the end, an existing one keeps its place. */
  function PutClaim(m: Claims, k: int, c: Claim): (r: Claims)
    requires ClaimsOk(m)
    ensures ClaimsOk(r) && r.entries == m.entries[k := c]
    ensures r.order == if k in m.entries then m.order else m.order + [k]
  {
    if k in m.entries then Claims(m.order, m.entries[k := c]) else Claims(m.order + [k], m.entries[k := c])
  }

  /** Python's `min` of a non-empty list of ids. */
  function MinOf(s: seq<int>): (r: int)
    requires s != []
    ensures r in s && forall x | x in s :: r <= x
  {
    if |s| == 1 then s[0]
    else
      var m := MinOf(s[1..]);
      assert forall x | x in s :: x == s[0] || x in s[1..];
      if s[0] <= m then s[0] else m
  }

  // ---------------------------------------------------------------------------
  // The fusion loop
  // ---------------------------------------------------------------------------

  /**
   * The state of the fusion loop: the mapping, `ids_antigos_em_fusao`,
   * `ids_novos_de_fusao` and the ids of `ids_para_remover_de_fusoes` (only
   * its set of elements is ever used).
   */
  datatype Plan = Plan(claims: Claims, inFusion: set<int>, fusionLabels: set<string>, doomed: set<int>)

  /** One fusion: skipped when it lists no old id, else its smallest id survives and takes the label. */
  function FusionStep(p: Plan, f: Fusion): (r: Plan)
    requires ClaimsOk(p.claims)
    ensures ClaimsOk(r.claims)
  {
    if f.contributors == [] then p
    else
      var s := MinOf(f.contributors);
      Plan(PutClaim(p.claims, s, Claim(Single(f.target), Fused)),
           p.inFusion + (set x | x in f.contributors),
           p.fusionLabels + {f.target},
           p.doomed + (set x | x in f.contributors && x != s))
  }

  /** The state after the first `n` fusions. */
  function PlanUpTo(start: Claims, fs: seq<Fusion>, n: nat): (r: Plan)
    requires ClaimsOk(start) && n <= |fs|
    ensures ClaimsOk(r.claims)
  {
    if n == 0 then Plan(start, {}, {}, {}) else FusionStep(PlanUpTo(start, fs, n - 1), fs[n - 1])
  }

  /** The fusion loop of the apply step. */
  method ProcessFusions(start: Claims, fs: seq<Fusion>) returns (p: Plan)
    requires ClaimsOk(start)
    ensures p == PlanUpTo(start, fs, |fs|)
  {
    p := Plan(start, {}, {}, {});
    var i: nat := 0;
    while i < |fs|
      invariant 0 <= i <= |fs|
      invariant p == PlanUpTo(start, fs, i)
    {
      var f := fs[i];
      if f.contributors != [] {
        var s := MinOf(f.contributors);
        p := Plan(PutClaim(p.claims, s, Claim(Single(f.target), Fused)),
                  p.inFusion + (set x | x in f.contributors),
                  p.fusionLabels + {f.target},
                  p.doomed + (set x | x in f.contributors && x != s));
      }
      i := i + 1;
    }
  }

  /** Fusion `f` takes part in the plan: it lists at least one old id. */
  predicate Active(f: Fusion) { f.contributors != [] }

  /** An id is in some fusion exactly when one of the first `n` fusions lists it. */
  lemma {:induction false} PlanInFusion(start: Claims, fs: seq<Fusion>, n: nat, x: int)
    requires ClaimsOk(start) && n <= |fs|
    ensures x in PlanUpTo(start, fs, n).inFusion ==> exists i :: 0 <= i < n && x in fs[i].contributors
    ensures (exists i :: 0 <= i < n && x in fs[i].contributors) ==> x in PlanUpTo(start, fs, n).inFusion
  {
    if n > 0 {
      PlanInFusion(start, fs, n - 1, x);
    }
  }

  /** A label is a fusion label exactly when one of the first `n` active fusions targets it. */
  lemma {:induction false} PlanLabels(start: Claims, fs: seq<Fusion>, n: nat, l: string)
    requires ClaimsOk(start) && n <= |fs|
    ensures l in PlanUpTo(start, fs, n).fusionLabels ==> exists i :: 0 <= i < n && Active(fs[i]) && fs[i].target == l
    ensures (exists i :: 0 <= i < n && Active(fs[i]) && fs[i].target == l) ==> l in PlanUpTo(start, fs, n).fusionLabels
  {
    if n > 0 {
      PlanLabels(start, fs, n - 1, l);
    }
  }

  /** Fusion `f` lists `x` and does not keep it: `x` is not its smallest id. */
  predicate NonSurvivor(f: Fusion, x: int) {
    x in f.contributors && x != MinOf(f.contributors)
  }

  /** An id is doomed exactly when it is a non-survivor of one of the first `n` fusions. */
  lemma {:induction false} PlanDoomed(start: Claims, fs: seq<Fusion>, n: nat, x: int)
    requires ClaimsOk(start) && n <= |fs|
    ensures x in PlanUpTo(start, fs, n).doomed ==> exists i :: 0 <= i < n && NonSurvivor(fs[i], x)
    ensures (exists i :: 0 <= i < n && NonSurvivor(fs[i], x)) ==> x in PlanUpTo(start, fs, n).doomed
  {
    if n > 0 {
      PlanDoomed(start, fs, n - 1, x);
      DoomedStep(PlanUpTo(start, fs, n - 1), fs[n - 1], x);
      if exists i :: 0 <= i < n && NonSurvivor(fs[i], x) {
        var i :| 0 <= i < n && NonSurvivor(fs[i], x);
        assert i == n - 1 || (0 <= i < n - 1 && NonSurvivor(fs[i], x));
      }
    }
  }

  /** One fusion dooms exactly its non-survivors. */
  lemma DoomedStep(p: Plan, f: Fusion, x: int)
    requires ClaimsOk(p.claims)
    ensures x in FusionStep(p, f).doomed <==> x in p.doomed || NonSurvivor(f, x)
  {
  }

  /** Fusion `f` is active and `k` is its survivor. */
  predicate Survives(f: Fusion, k: int) {
    f.contributors != [] && MinOf(f.contributors) == k
  }

  /** The last of the first `n` fusions that `k` survives, if any. */
  function LastSurvived(fs: seq<Fusion>, k: int, n: nat): (r: Option<nat>)
    requires n <= |fs|
    ensures r.None? <==> forall i | 0 <= i < n :: !Survives(fs[i], k)
    ensures r.Some? ==> r.value < n && Survives(fs[r.value], k) && forall j | r.value < j < n :: !Survives(fs[j], k)
  {
    if n == 0 then None
    else if Survives(fs[n - 1], k) then Some(n - 1)
    else LastSurvived(fs, k, n - 1)
  }

  /**
   * What the fusion loop leaves in the mapping: a survivor's entry is that of
   * the last fusion it survives; every other entry is the one that came in.
   * The old order is kept, and only survivors are appended to it.
   */
  lemma {:induction false} PlanClaims(start: Claims, fs: seq<Fusion>, n: nat, k: int)
    requires ClaimsOk(start) && n <= |fs|
    ensures var c := PlanUpTo(start, fs, n).claims;
      LastSurvived(fs, k, n).Some? ==> k in c.entries && c.entries[k] == Claim(Single(fs[LastSurvived(fs, k, n).value].target), Fused)
    ensures var c := PlanUpTo(start, fs, n).claims;
      LastSurvived(fs, k, n).None? ==> (k in c.entries <==> k in start.entries) && (k in start.entries ==> c.entries[k] == start.entries[k])
  {
    if n > 0 {
      PlanClaims(start, fs, n - 1, k);
      ClaimStep(PlanUpTo(start, fs, n - 1), fs[n - 1], k);
    }
  }

  /** One fusion sets its survivor's claim to its own label and leaves every other claim as it was. */
  lemma ClaimStep(p: Plan, f: Fusion, k: int)
    requires ClaimsOk(p.claims)
    ensures Survives(f, k) ==> k in FusionStep(p, f).claims.entries && FusionStep(p, f).claims.entries[k] == Claim(Single(f.target), Fused)
    ensures !Survives(f, k) ==>
      && (k in FusionStep(p, f).claims.entries <==> k in p.claims.entries)
      && (k in p.claims.entries ==> FusionStep(p, f).claims.entries[k] == p.claims.entries[k])
  {
  }

  /** The fusion loop only appends to the mapping's order, and only survivors. */
  lemma {:induction false} PlanOrder(start: Claims, fs: seq<Fusion>, n: nat)
    requires ClaimsOk(start) && n <= |fs|
    ensures OrderGrown(start, fs, n)
  {
    if n > 0 {
      PlanOrder(start, fs, n - 1);
      OrderStep(start, fs, n);
    }
  }

  /** The order after `n` fusions extends the starting one, with survivors of those fusions only. */
  predicate OrderGrown(start: Claims, fs: seq<Fusion>, n: nat)
    requires ClaimsOk(start) && n <= |fs|
  {
    var o := PlanUpTo(start, fs, n).claims.order;
    |start.order| <= |o| && o[..|start.order|] == start.order &&
    forall j | |start.order| <= j < |o| :: exists i :: 0 <= i < n && Survives(fs[i], o[j])
  }

  /** Fusion `n - 1` appends at most its own survivor. */
  lemma OrderStep(start: Claims, fs: seq<Fusion>, n: nat)
    requires ClaimsOk(start) && 0 < n <= |fs|
    requires OrderGrown(start, fs, n - 1)
    ensures OrderGrown(start, fs, n)
  {
    var o := PlanUpTo(start, fs, n - 1).claims.order;
    var o' := PlanUpTo(start, fs, n).claims.order;
    if Active(fs[n - 1]) {
      var s := MinOf(fs[n - 1].contributors);
      assert Survives(fs[n - 1], s);
      assert o' == o || o' == o + [s];
      assert o'[..|start.order|] == o[..|start.order|];
      forall j | |start.order| <= j < |o'| ensures exists i :: 0 <= i < n && Survives(fs[i], o'[j]) {
        if j < |o| {
          assert o'[j] == o[j];
          var i :| 0 <= i < n - 1 && Survives(fs[i], o[j]);
        } else {
          assert o'[j] == s;
        }
      }
    } else {
      assert o' == o;
      forall j | |start.order| <= j < |o'| ensures exists i :: 0 <= i < n && Survives(fs[i], o'[j]) {
        var i :| 0 <= i < n - 1 && Survives(fs[i], o[j]);
      }
    }
  }

  // ---------------------------------------------------------------------------
  // What to remove and what to create
  // ---------------------------------------------------------------------------

  /** `(set(desaparecidos) - ids_antigos_em_fusao) | set(ids_para_remover_de_fusoes)`. */
  function ToRemove(gone: seq<int>, p: Plan): set<int> {
    ((set x | x in gone) - p.inFusion) + p.doomed
  }

  /** `set(novos) - ids_novos_de_fusao`. */
  function ToCreate(novos: seq<string>, p: Plan): set<string> {
    (set l | l in novos) - p.fusionLabels
  }

  /**
   * An id is removed exactly when it disappeared and no fusion lists it, or
   * some fusion lists it without keeping it.
   */
  lemma RemovedExactly(start: Claims, gone: seq<int>, fs: seq<Fusion>, x: int)
    requires ClaimsOk(start)
    ensures x in ToRemove(gone, PlanUpTo(start, fs, |fs|)) ==>
      (x in gone && forall i | 0 <= i < |fs| :: x !in fs[i].contributors) || exists i :: 0 <= i < |fs| && NonSurvivor(fs[i], x)
    ensures (x in gone && forall i | 0 <= i < |fs| :: x !in fs[i].contributors) ==> x in ToRemove(gone, PlanUpTo(start, fs, |fs|))
    ensures (exists i :: 0 <= i < |fs| && NonSurvivor(fs[i], x)) ==> x in ToRemove(gone, PlanUpTo(start, fs, |fs|))
  {
    PlanInFusion(start, fs, |fs|, x);
    PlanDoomed(start, fs, |fs|, x);
  }

  /** A label is created exactly when it is new and no active fusion targets it. */
  lemma CreatedExactly(start: Claims, novos: seq<string>, fs: seq<Fusion>, l: string)
    requires ClaimsOk(start)
    ensures l in ToCreate(novos, PlanUpTo(start, fs, |fs|)) <==>
      l in novos && forall i | 0 <= i < |fs| :: !(Active(fs[i]) && fs[i].target == l)
  {
    PlanLabels(start, fs, |fs|, l);
  }

  // ---------------------------------------------------------------------------
  // The identity map
  // ---------------------------------------------------------------------------

  /**
   * `mapa_final_temp_para_db` after the first `n` mapping entries: starting
   * from the created ids, each entry with a single destination sets that
   * label to its old id; an entry with a list is skipped.
   */
  function IdentityUpTo(start: map<string, Option<int>>, m: Claims, n: nat): map<string, Option<int>>
    requires ClaimsOk(m) && n <= |m.order|
  {
    if n == 0 then start
    else
      var prev := IdentityUpTo(start, m, n - 1);
      var k := m.order[n - 1];
      match m.entries[k].dest
      case Several(_) => prev
      case Single(t) => prev[t := Some(k)]
  }

  /** The identity-map loop of the apply step. */
  method BuildIdentity(created: map<string, Option<int>>, m: Claims) returns (final: map<string, Option<int>>)
    requires ClaimsOk(m)
    ensures final == IdentityUpTo(created, m, |m.order|)
  {
    final := created;
    var i: nat := 0;
    while i < |m.order|
      invariant 0 <= i <= |m.order|
      invariant final == IdentityUpTo(created, m, i)
    {
      var k := m.order[i];
      match m.entries[k].dest {
        case Several(_) =>
        case Single(t) => final := final[t := Some(k)];
      }
      i := i + 1;
    }
  }

  /** Entry `i` is the last of the first `n` whose single destination is `t`. */
  predicate LastClaimAt(m: Claims, t: string, n: nat, i: nat)
    requires ClaimsOk(m) && n <= |m.order|
  {
    && i < n && m.entries[m.order[i]].dest == Single(t)
    && forall j | i < j < n :: m.entries[m.order[j]].dest != Single(t)
  }

  /** Among the first `n` entries in order, the last whose single destination is `t`. */
  function LastClaimant(m: Claims, t: string, n: nat): (r: Option<int>)
    requires ClaimsOk(m) && n <= |m.order|
    ensures r.None? ==> forall i | 0 <= i < n :: m.entries[m.order[i]].dest != Single(t)
    ensures r.Some? ==> exists i: nat :: LastClaimAt(m, t, n, i) && m.order[i] == r.value
  {
    if n == 0 then None
    else if m.entries[m.order[n - 1]].dest == Single(t) then Some(m.order[n - 1])
    else LastClaimant(m, t, n - 1)
  }

  /**
   * The last claimant wins: a label resolves to the id of the last entry that
   * names it, and to its created id only when no entry names it.
   */
  lemma {:induction false} LastClaimantWins(start: map<string, Option<int>>, m: Claims, n: nat, t: string)
    requires ClaimsOk(m) && n <= |m.order|
    ensures t in IdentityUpTo(start, m, n) <==> t in start || LastClaimant(m, t, n).Some?
    ensures LastClaimant(m, t, n).Some? ==> IdentityUpTo(start, m, n)[t] == LastClaimant(m, t, n)
    ensures LastClaimant(m, t, n).None? && t in start ==> IdentityUpTo(start, m, n)[t] == start[t]
  {
    if n > 0 {
      LastClaimantWins(start, m, n - 1, t);
      var k := m.order[n - 1];
      if m.entries[k].dest == Single(t) {
        assert IdentityUpTo(start, m, n) == IdentityUpTo(start, m, n - 1)[t := Some(k)];
      } else {
        assert t in IdentityUpTo(start, m, n) <==> t in IdentityUpTo(start, m, n - 1);
        assert t in IdentityUpTo(start, m, n) ==> IdentityUpTo(start, m, n)[t] == IdentityUpTo(start, m, n - 1)[t];
      }
    }
  }

  /** `mapa_final_temp_para_db.get(label)`: absent and a failed creation both give None. */
  function Resolve(final: map<string, Option<int>>, t: string): Option<int> {
    if t in final then final[t] else None
  }

  // ---------------------------------------------------------------------------
  // A removed claimant wins the identity map
  // ---------------------------------------------------------------------------

  /** Two old clusters, both retyped as merged into label "a", in this order. */
  function MergedPairClaims(): Claims {
    Claims([1, 2], map[1 := Claim(Single("a"), Reconciled(MergedInto)), 2 := Claim(Single("a"), Reconciled(MergedInto))])
  }

  /** The fusion the reconciler reports for them. */
  function MergedPairFusions(): seq<Fusion> {
    [Fusion("a", [1, 2], 1.0)]
  }

  /**
   * As written, the identity map gives label "a" to old cluster 2, the very
   * cluster the removal step deletes because 1 survived the fusion.
   */
  lemma StaleIdentity()
    ensures ClaimsOk(MergedPairClaims())
    ensures var p := PlanUpTo(MergedPairClaims(), MergedPairFusions(), 1);
      && p.claims.order == [1, 2]
      && ToRemove([], p) == {2}
      && Resolve(IdentityUpTo(map[], p.claims, 2), "a") == Some(2)
  {
    var p := PlanUpTo(MergedPairClaims(), MergedPairFusions(), 1);
    assert MinOf([1, 2]) == 1;
    assert p.claims == Claims([1, 2], map[1 := Claim(Single("a"), Fused), 2 := Claim(Single("a"), Reconciled(MergedInto))]);
    assert (set x | x in [1, 2] && x != 1) == {2};
    assert ToRemove([], p) == {2};
  }

  /**
   * The identity map as evidently intended: an entry whose old cluster is
   * being removed claims nothing.
   */
  function LiveIdentityUpTo(start: map<string, Option<int>>, m: Claims, removed: set<int>, n: nat): map<string, Option<int>>
    requires ClaimsOk(m) && n <= |m.order|
  {
    if n == 0 then start
    else
      var prev := LiveIdentityUpTo(start, m, removed, n - 1);
      var k := m.order[n - 1];
      if k in removed then prev
      else
        match m.entries[k].dest
        case Several(_) => prev
        case Single(t) => prev[t := Some(k)]
  }

  /** The corrected identity-map loop. */
  method BuildLiveIdentity(created: map<string, Option<int>>, m: Claims, removed: set<int>)
    returns (final: map<string, Option<int>>)
    requires ClaimsOk(m)
    ensures final == LiveIdentityUpTo(created, m, removed, |m.order|)
  {
    final := created;
    var i: nat := 0;
    while i < |m.order|
      invariant 0 <= i <= |m.order|
      invariant final == LiveIdentityUpTo(created, m, removed, i)
    {
      var k := m.order[i];
      if k !in removed {
        match m.entries[k].dest {
          case Several(_) =>
          case Single(t) => final := final[t := Some(k)];
        }
      }
      i := i + 1;
    }
  }

  /**
   * Every label of the corrected map resolves to a created id or to the old
   * id of an entry naming it, never to a removed cluster.
   */
  lemma {:induction false} LiveIdentityIsLive(start: map<string, Option<int>>, m: Claims, removed: set<int>, n: nat, t: string)
    requires ClaimsOk(m) && n <= |m.order|
    requires forall u | u in start && start[u].Some? :: start[u].value !in removed
    ensures var r := Resolve(LiveIdentityUpTo(start, m, removed, n), t);
      r.Some? ==> r.value !in removed && ((t in start && start[t] == r) || (r.value in m.entries && m.entries[r.value].dest == Single(t)))
  {
    if n > 0 {
      LiveIdentityIsLive(start, m, removed, n - 1, t);
    }
  }

  /** With nothing removed, the corrected map is the map as written. */
  lemma {:induction false} LiveIdentityAgrees(start: map<string, Option<int>>, m: Claims, n: nat)
    requires ClaimsOk(m) && n <= |m.order|
    ensures LiveIdentityUpTo(start, m, {}, n) == IdentityUpTo(start, m, n)
  {
    if n > 0 {
      LiveIdentityAgrees(start, m, n - 1);
    }
  }

  /** On the same input the corrected map gives label "a" to the survivor. */
  lemma LiveIdentityKeepsSurvivor()
    ensures ClaimsOk(MergedPairClaims())
    ensures var p := PlanUpTo(MergedPairClaims(), MergedPairFusions(), 1);
      && p.claims.order == [1, 2]
      && Resolve(LiveIdentityUpTo(map[], p.claims, ToRemove([], p), 2), "a") == Some(1)
  {
    StaleIdentity();
  }
}
