/**
 * `coredump_clustering.py`, the older standalone clustering script: the
 * same trigger answering a pair, a snapshot that maps each file name to
 * its coredump id, and a round that always removes the CSV afterwards.
 */
module LegacyClustering {
  import opened Wrappers
  import opened Records
  import Text
  import Clusterizer

  /** `check_trigger`: the decision and the number of unclustered coredumps it saw, (False, 0) when it does not fire. */
  function CheckTrigger(all: seq<Row>, unclustered: seq<Row>, state: Option<real>, now: real): (r: (bool, nat))
    ensures r.0 == Clusterizer.CheckTrigger(all, unclustered, state, now)
    ensures r.1 == if r.0 then |unclustered| else 0
  {
    if |all| < 2 then (false, 0)
    else if |unclustered| == 0 then (false, 0)
    else if |unclustered| >= Clusterizer.MinNewCoredumpsTrigger then (true, |unclustered|)
    else if now - Clusterizer.LastRun(state) > Clusterizer.MaxTimeSinceLastRunSeconds as real then (true, |unclustered|)
    else (false, 0)
  }

  /**
   * The record makes the loop raise: `dump[5]` does not exist (IndexError),
   * or it is NULL, which `os.path.exists` passes to `os.stat` (TypeError).
   */
  predicate Raises(dump: Row) {
    |dump| <= LogPathCol || dump[LogPathCol].Null?
  }

  /** The record's file exists and is copied. */
  predicate Present(dump: Row, files: set<string>) {
    !Raises(dump) && dump[LogPathCol].Str? && dump[LogPathCol].s in files
  }

  /** The base name a present record is copied under. */
  function NameOf(dump: Row, files: set<string>): string
    requires Present(dump, files)
  {
    Text.Basename(dump[LogPathCol].s)
  }

  /** The map the loop builds over `records`, None once a record raises. */
  function Scan(records: seq<Row>, files: set<string>): Option<map<string, Value>> {
    if records == [] then Some(map[])
    else
      var init := Scan(records[..|records| - 1], files);
      var dump := records[|records| - 1];
      if init.None? || Raises(dump) then None
      else if Present(dump, files) then Some(init.value[NameOf(dump, files) := dump[CoredumpIdCol]])
      else init
  }

  /** What `prepare_snapshot_directory` answers: the pair (None, None), an exception, or the map. */
  datatype Snapshot = NoneNone | Raised | Mapped(ids: map<string, Value>)

  function SnapshotOf(records: seq<Row>, files: set<string>): Snapshot {
    if records == [] then NoneNone
    else
      match Scan(records, files)
      case None => Raised
      case Some(m) => Mapped(m)
  }

  /** `if not filename_to_id_map`: only an empty map is false; the pair (None, None) is a non-empty tuple. */
  predicate Truthy(s: Snapshot)
    requires !s.Raised?
  {
    s.NoneNone? || s.ids != map[]
  }

  /**
   * `prepare_snapshot_directory`: with no records, the pair (None, None);
   * otherwise, record by record, the copied file's name mapped to the
   * record's id, until a record raises.
   */
  method PrepareSnapshotDirectory(records: seq<Row>, files: set<string>) returns (r: Snapshot)
    ensures r == SnapshotOf(records, files)
  {
    if records == [] {
      return NoneNone;
    }
    var ids: map<string, Value> := map[];
    var i: nat := 0;
    while i < |records|
      invariant 0 <= i <= |records|
      invariant Scan(records[..i], files) == Some(ids)
    {
      var dump := records[i];
      assert records[..i + 1][..i] == records[..i];
      if |dump| <= LogPathCol {
        ScanStaysRaised(records, files, i + 1);
        return Raised;
      }
      var source := dump[LogPathCol];
      if source.Null? {
        ScanStaysRaised(records, files, i + 1);
        return Raised;
      }
      if source.Str? && source.s in files {
        ids := ids[Text.Basename(source.s) := dump[CoredumpIdCol]];
      }
      i := i + 1;
    }
    assert records[..i] == records;
    return Mapped(ids);
  }

  /** Once the loop has raised on a prefix it has raised on the whole. */
  lemma {:induction false} ScanStaysRaised(records: seq<Row>, files: set<string>, n: nat)
    requires n <= |records| && Scan(records[..n], files).None?
    ensures Scan(records, files).None?
    decreases |records| - n
  {
    if n < |records| {
      assert records[..n + 1][..n] == records[..n];
      ScanStaysRaised(records, files, n + 1);
    } else {
      assert records[..n] == records;
    }
  }

  /** The loop raises exactly when some record does. */
  lemma {:induction false} ScanRaises(records: seq<Row>, files: set<string>)
    ensures Scan(records, files).None? <==> exists i :: 0 <= i < |records| && Raises(records[i])
  {
    if records != [] {
      var init := records[..|records| - 1];
      ScanRaises(init, files);
      if exists i :: 0 <= i < |init| && Raises(init[i]) {
        var i :| 0 <= i < |init| && Raises(init[i]);
        assert records[i] == init[i];
      }
      if exists i :: 0 <= i < |records| && Raises(records[i]) {
        var i :| 0 <= i < |records| && Raises(records[i]);
        if i < |init| {
          assert init[i] == records[i];
        }
      }
    }
  }

  /** Some present record of `records` is copied under the name `n`. */
  predicate Named(records: seq<Row>, files: set<string>, n: string) {
    exists i :: 0 <= i < |records| && Present(records[i], files) && NameOf(records[i], files) == n
  }

  /** Record `i` is present and no later present record is copied under its name. */
  predicate LastNamed(records: seq<Row>, files: set<string>, i: nat)
    requires i < |records|
  {
    Present(records[i], files) &&
    forall j :: i < j < |records| && Present(records[j], files) ==> NameOf(records[j], files) != NameOf(records[i], files)
  }

  /** The map's names are those of the present records; each maps to the id of the last present record with that name. */
  lemma {:induction false} LastIdWins(records: seq<Row>, files: set<string>)
    requires Scan(records, files).Some?
    ensures forall n :: n in Scan(records, files).value <==> Named(records, files, n)
    ensures forall i: nat | i < |records| && LastNamed(records, files, i) ::
      NameOf(records[i], files) in Scan(records, files).value &&
      Scan(records, files).value[NameOf(records[i], files)] == records[i][CoredumpIdCol]
  {
    if records != [] {
      var init := records[..|records| - 1];
      var dump := records[|records| - 1];
      assert records == init + [dump];
      LastIdWins(init, files);
      NamesStep(init, dump, files);
      IdsStep(init, dump, files);
      var m := Scan(records, files).value;
      forall i: nat | i < |records| && LastNamed(records, files, i)
        ensures NameOf(records[i], files) in m && m[NameOf(records[i], files)] == records[i][CoredumpIdCol]
      {
        if i < |init| {
          assert records[i] == init[i];
          assert LastNamed(init, files, i);
        } else {
          assert records[i] == dump;
        }
      }
    }
  }

  /** The names after one more record: those before, and its own when it is present. */
  lemma NamesStep(init: seq<Row>, dump: Row, files: set<string>)
    ensures forall n :: Named(init + [dump], files, n) <==> Named(init, files, n) || (Present(dump, files) && NameOf(dump, files) == n)
  {
    var records := init + [dump];
    forall n ensures Named(records, files, n) <==> Named(init, files, n) || (Present(dump, files) && NameOf(dump, files) == n) {
      if Named(records, files, n) {
        var i :| 0 <= i < |records| && Present(records[i], files) && NameOf(records[i], files) == n;
        if i < |init| {
          assert records[i] == init[i];
        }
      }
      if Named(init, files, n) {
        var i :| 0 <= i < |init| && Present(init[i], files) && NameOf(init[i], files) == n;
        assert records[i] == init[i];
      }
      if Present(dump, files) && NameOf(dump, files) == n {
        assert records[|init|] == dump;
      }
    }
  }

  /** A record that is last with its name among `init + [dump]` is the new one or was last among `init`, under another name than a present `dump`. */
  lemma IdsStep(init: seq<Row>, dump: Row, files: set<string>)
    ensures forall i: nat | i < |init| && LastNamed(init + [dump], files, i) ::
      LastNamed(init, files, i) && (Present(dump, files) ==> NameOf(dump, files) != NameOf(init[i], files))
  {
    var records := init + [dump];
    forall i: nat | i < |init| && LastNamed(records, files, i)
      ensures LastNamed(init, files, i) && (Present(dump, files) ==> NameOf(dump, files) != NameOf(init[i], files))
    {
      assert records[i] == init[i];
      forall j | i < j < |init| && Present(init[j], files) ensures NameOf(init[j], files) != NameOf(init[i], files) {
        assert records[j] == init[j];
      }
      assert records[|init|] == dump;
    }
  }

  /** What the store, the files, the clock and the container answer during one run of `main`. */
  datatype Env = Env(
    all: seq<Row>,
    unclustered: seq<Row>,
    snapshotRows: seq<Row>,
    state: Option<real>,
    now: real,
    later: real,
    files: set<string>,
    /** Whether the container run succeeds (and answers the CSV's path), and whether that file exists. */
    dockerOk: bool,
    csvExists: bool,
    reconcileRaises: bool,
    stateWriteRaises: bool)

  /** `process_clustering_results(path)`: nothing when the CSV is missing; else reconcile, then write the state. */
  function ProcessResults(env: Env, path: string): seq<Clusterizer.Effect> {
    if !env.csvExists then []
    else if env.reconcileRaises || env.stateWriteRaises then [Clusterizer.Reconcile(path)]
    else [Clusterizer.Reconcile(path), Clusterizer.WriteState(env.later)]
  }

  /** The `try` body of `main`. The container run answers the CSV path with its "/data/" prefix removed. */
  function Attempt(env: Env): seq<Clusterizer.Effect> {
    var snap := SnapshotOf(env.snapshotRows, env.files);
    if snap.Raised? then []
    else
      var taken := [Clusterizer.TakeSnapshot(if snap.Mapped? then |snap.ids.Keys| else 0)];
      if !Truthy(snap) then taken
      else if !env.dockerOk then taken + [Clusterizer.RunDamicore]
      else taken + [Clusterizer.RunDamicore] + ProcessResults(env, Clusterizer.ClusterOutputFile)
  }

  /** `main`: the database check, the trigger, and when it fires the attempt followed by the cleanup that removes the CSV. */
  function Round(env: Env): seq<Clusterizer.Effect> {
    if !CheckTrigger(env.all, env.unclustered, env.state, env.now).0 then [Clusterizer.CreateDatabase]
    else [Clusterizer.CreateDatabase] + Attempt(env) + [Clusterizer.Cleanup(true)]
  }

  /** The container runs exactly when the trigger fires and the snapshot is neither raised nor an empty map. */
  lemma RoundRunsDocker(env: Env)
    ensures Clusterizer.RunDamicore in Round(env) <==>
      CheckTrigger(env.all, env.unclustered, env.state, env.now).0
      && !SnapshotOf(env.snapshotRows, env.files).Raised? && Truthy(SnapshotOf(env.snapshotRows, env.files))
  {
  }

  /** A store that is empty at the second read gives (None, None), which does not stop the round: the container still runs. */
  lemma EmptyStoreStillRuns(env: Env)
    requires CheckTrigger(env.all, env.unclustered, env.state, env.now).0 && env.snapshotRows == []
    ensures Clusterizer.RunDamicore in Round(env)
  {
  }

  /** Records whose files are all missing give an empty map, which stops the round before the container. */
  lemma NothingCopiedStops(env: Env)
    requires forall i :: 0 <= i < |env.snapshotRows| ==> !Raises(env.snapshotRows[i]) && !Present(env.snapshotRows[i], env.files)
    requires env.snapshotRows != []
    ensures Clusterizer.RunDamicore !in Round(env)
  {
    ScanRaises(env.snapshotRows, env.files);
    LastIdWins(env.snapshotRows, env.files);
    var m := Scan(env.snapshotRows, env.files).value;
    assert m.Keys == {};
  }

  /** Results are reconciled only when the container answered a path and the CSV exists; the state is written only right after. */
  lemma RoundReconcilesOnSuccess(env: Env)
    ensures Clusterizer.Reconcile(Clusterizer.ClusterOutputFile) in Round(env) <==>
      Clusterizer.RunDamicore in Round(env) && env.dockerOk && env.csvExists
    ensures forall i :: 0 <= i < |Round(env)| && Round(env)[i].WriteState? ==>
      0 < i && Round(env)[i - 1] == Clusterizer.Reconcile(Clusterizer.ClusterOutputFile)
  {
  }

  /** Once the trigger fires every path ends with the cleanup that removes the temporary directory and the CSV. */
  lemma RoundCleansUp(env: Env)
    ensures CheckTrigger(env.all, env.unclustered, env.state, env.now).0 ==>
      Round(env)[|Round(env)| - 1] == Clusterizer.Cleanup(true)
    ensures !CheckTrigger(env.all, env.unclustered, env.state, env.now).0 ==> Round(env) == [Clusterizer.CreateDatabase]
  {
  }
}
