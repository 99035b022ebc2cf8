/**
 * `coredump_clusterizer.py`: when a clustering round starts, how many
 * files its snapshot holds, and the order of the steps of one round. The
 * store's lists, the state file, the clock, the file system and the
 * DAMICORE container are inputs: the model records what the round does
 * with their answers.
 */
module Clusterizer {
  import opened Wrappers
  import opened Records
  import Text

  /** At least this many unclustered coredumps start a round at once. */
  const MinNewCoredumpsTrigger := 5
  /** With fewer, a round starts once this many seconds have passed since the last one. */
  const MaxTimeSinceLastRunSeconds := 300
  /** Where DAMICORE writes its clusters. */
  const ClusterOutputFile := "db/damicore/clusters.csv"

  /** The last-run time: the number in the state file, 0 when the file is missing or does not parse. */
  function LastRun(state: Option<real>): real {
    if state.Some? then state.value else 0.0
  }

  /**
   * `check_trigger`: at least two coredumps in the store and at least one
   * unclustered, then either enough unclustered ones or enough time.
   */
  function CheckTrigger(all: seq<Row>, unclustered: seq<Row>, state: Option<real>, now: real): (r: bool)
    ensures |all| < 2 ==> !r
    ensures |unclustered| == 0 ==> !r
    ensures |all| >= 2 && |unclustered| >= MinNewCoredumpsTrigger ==> r
    ensures |all| >= 2 && 0 < |unclustered| < MinNewCoredumpsTrigger ==>
      (r <==> now - LastRun(state) > MaxTimeSinceLastRunSeconds as real)
  {
    if |all| < 2 then false
    else if |unclustered| == 0 then false
    else if |unclustered| >= MinNewCoredumpsTrigger then true
    else now - LastRun(state) > MaxTimeSinceLastRunSeconds as real
  }

  /** More unclustered coredumps, or a later clock, never turn a firing trigger off. */
  lemma TriggerMonotone(all: seq<Row>, u: seq<Row>, u': seq<Row>, state: Option<real>, now: real, now': real)
    requires CheckTrigger(all, u, state, now)
    requires |u| <= |u'| && now <= now'
    ensures CheckTrigger(all, u', state, now')
  {
  }

  /** The path `prepare_snapshot_directory` copies for a record: `str(record[5])`, when the record has that column. */
  function SourcePath(record: Row): Option<string> {
    if |record| > LogPathCol then Some(PyStr(record[LogPathCol])) else None
  }

  /** The record's file is copied: it has the column, and the path names an existing file. */
  predicate Copied(record: Row, files: set<string>) {
    SourcePath(record).Some? && SourcePath(record).value in files
  }

  /** The records whose file is copied, in order. */
  function Copyable(records: seq<Row>, files: set<string>): (r: seq<Row>)
    ensures |r| <= |records|
    ensures forall x :: x in r <==> x in records && Copied(x, files)
  {
    if records == [] then []
    else
      var init := Copyable(records[..|records| - 1], files);
      var last := records[|records| - 1];
      assert records == records[..|records| - 1] + [last];
      if Copied(last, files) then init + [last] else init
  }

  /** The snapshot directory: each copied file under its base name, the later copy replacing the earlier. */
  function Snapshot(records: seq<Row>, files: set<string>): map<string, string> {
    if records == [] then map[]
    else
      var init := Snapshot(records[..|records| - 1], files);
      var last := records[|records| - 1];
      if Copied(last, files) then init[Text.Basename(SourcePath(last).value) := SourcePath(last).value] else init
  }

  /** One more record copies one more file when its own file is copied. */
  lemma CopyableStep(records: seq<Row>, files: set<string>, i: nat)
    requires i < |records|
    ensures Copyable(records[..i + 1], files) ==
      Copyable(records[..i], files) + if Copied(records[i], files) then [records[i]] else []
  {
    assert records[..i + 1][..i] == records[..i];
  }

  /** One more record enters the snapshot under its base name when its file is copied. */
  lemma SnapshotStep(records: seq<Row>, files: set<string>, i: nat)
    requires i < |records|
    ensures Snapshot(records[..i + 1], files) ==
      if Copied(records[i], files)
      then Snapshot(records[..i], files)[Text.Basename(SourcePath(records[i]).value) := SourcePath(records[i]).value]
      else Snapshot(records[..i], files)
  {
    assert records[..i + 1][..i] == records[..i];
  }

  /** The base name a copied record's file is stored under. */
  function CopyName(record: Row, files: set<string>): string
    requires Copied(record, files)
  {
    Text.Basename(SourcePath(record).value)
  }

  /** The snapshot's names are the base names of the copied records. */
  lemma {:induction false} SnapshotNames(records: seq<Row>, files: set<string>)
    ensures forall n :: n in Snapshot(records, files) <==>
      exists x :: x in Copyable(records, files) && CopyName(x, files) == n
  {
    if records != [] {
      var init := records[..|records| - 1];
      var last := records[|records| - 1];
      SnapshotNames(init, files);
      CopyableStep(records, files, |records| - 1);
      SnapshotStep(records, files, |records| - 1);
      assert records[..|records|] == records;
      if Copied(last, files) {
        var c := Copyable(init, files);
        assert Copyable(records, files) == c + [last];
        forall n ensures n in Snapshot(records, files) <==> exists x :: x in c + [last] && CopyName(x, files) == n {
          if n == CopyName(last, files) {
            assert last in c + [last];
          } else if n in Snapshot(init, files) {
            var x :| x in c && CopyName(x, files) == n;
            assert x in c + [last];
          } else {
            assert forall x :: x in c + [last] && CopyName(x, files) == n ==> x in c;
          }
        }
      } else {
        assert Copyable(records, files) == Copyable(init, files);
      }
    }
  }

  /** The snapshot never holds more files than were copied. */
  lemma {:induction false} SnapshotSize(records: seq<Row>, files: set<string>)
    ensures |Snapshot(records, files).Keys| <= |Copyable(records, files)|
  {
    if records != [] {
      var init := records[..|records| - 1];
      var last := records[|records| - 1];
      SnapshotSize(init, files);
      CopyableStep(records, files, |records| - 1);
      SnapshotStep(records, files, |records| - 1);
      assert records[..|records|] == records;
      if Copied(last, files) {
        var m := Snapshot(init, files);
        var n := CopyName(last, files);
        assert Snapshot(records, files).Keys == m.Keys + {n};
        assert |m.Keys + {n}| <= |m.Keys| + 1;
      }
    }
  }

  /** Two copied records with the same base name count as two copies but leave one file. */
  lemma SameNameCountsTwice(a: Row, b: Row, files: set<string>)
    requires Copied(a, files) && Copied(b, files)
    requires Text.Basename(SourcePath(a).value) == Text.Basename(SourcePath(b).value)
    ensures |Copyable([a, b], files)| == 2
    ensures |Snapshot([a, b], files).Keys| == 1
  {
    assert [a, b][..1] == [a];
    assert [a][..0] == [];
    var n := Text.Basename(SourcePath(a).value);
    assert Snapshot([a], files) == map[n := SourcePath(a).value];
    assert Snapshot([a, b], files) == Snapshot([a], files)[n := SourcePath(b).value];
    assert Snapshot([a, b], files).Keys == {n};
  }

  /**
   * `prepare_snapshot_directory`: copies, record by record, the file its
   * column 5 names when the record has that column and the file exists;
   * answers how many copies it made, and leaves `dir` as the directory.
   */
  method PrepareSnapshotDirectory(records: seq<Row>, files: set<string>) returns (copied: nat, dir: map<string, string>)
    ensures copied == |Copyable(records, files)|
    ensures dir == Snapshot(records, files)
  {
    dir := map[];
    if records == [] {
      return 0, dir;
    }
    copied := 0;
    var i: nat := 0;
    while i < |records|
      invariant 0 <= i <= |records|
      invariant copied == |Copyable(records[..i], files)|
      invariant dir == Snapshot(records[..i], files)
    {
      var record := records[i];
      CopyableStep(records, files, i);
      SnapshotStep(records, files, i);
      if |record| > LogPathCol {
        var path := PyStr(record[LogPathCol]);
        if path in files {
          dir := dir[Text.Basename(path) := path];
          copied := copied + 1;
        }
      }
      i := i + 1;
    }
    assert records[..i] == records;
  }

  /** One effect a round has on the store, the file system or the container. */
  datatype Effect =
    | CreateDatabase
    | TakeSnapshot(copied: nat)
    | RunDamicore
    | Reconcile(csv: string)
    | WriteState(stamp: real)
    | Cleanup(removeCsv: bool)

  /** What the store, the files, the clock and the container answer during one round. */
  datatype Env = Env(
    /** `list_all_coredumps()` and `get_unclustered_coredumps()` for the trigger, and the second `list_all_coredumps()` for the snapshot. */
    all: seq<Row>,
    unclustered: seq<Row>,
    snapshotRows: seq<Row>,
    /** The state file's timestamp, None when missing or unparsable. */
    state: Option<real>,
    /** `time.time()` at the trigger check, and when the state is written. */
    now: real,
    later: real,
    /** The paths that name existing files. */
    files: set<string>,
    /** Whether building the snapshot, the reconciliation or the state write raises. */
    snapshotRaises: bool,
    reconcileRaises: bool,
    stateWriteRaises: bool,
    /** Whether the container run succeeds, and whether the CSV then exists. */
    damicoreOk: bool,
    csvExists: bool)

  /** `process_clustering_results()`: on the default CSV, when it exists, reconcile and then write the state. */
  function ProcessResults(env: Env): seq<Effect> {
    if !env.csvExists then []
    else if env.reconcileRaises then [Reconcile(ClusterOutputFile)]
    else if env.stateWriteRaises then [Reconcile(ClusterOutputFile)]
    else [Reconcile(ClusterOutputFile), WriteState(env.later)]
  }

  /** The `try` body of `main`: snapshot, then the container with at least two copies, then the results on success. */
  function Attempt(env: Env): seq<Effect> {
    if env.snapshotRaises then []
    else
      var copied := |Copyable(env.snapshotRows, env.files)|;
      if copied == 0 || copied < 2 then [TakeSnapshot(copied)]
      else if !env.damicoreOk then [TakeSnapshot(copied), RunDamicore]
      else [TakeSnapshot(copied), RunDamicore] + ProcessResults(env)
  }

  /** `main`: the database check, the trigger, and when it fires the attempt followed by the cleanup that keeps the CSV. */
  function Round(env: Env): seq<Effect> {
    if !CheckTrigger(env.all, env.unclustered, env.state, env.now) then [CreateDatabase]
    else [CreateDatabase] + Attempt(env) + [Cleanup(false)]
  }

  /** The effects of a round, path by path. */
  lemma RoundPaths(env: Env)
    ensures var copied := |Copyable(env.snapshotRows, env.files)|;
      Round(env) ==
        if !CheckTrigger(env.all, env.unclustered, env.state, env.now) then [CreateDatabase]
        else if env.snapshotRaises then [CreateDatabase, Cleanup(false)]
        else if copied < 2 then [CreateDatabase, TakeSnapshot(copied), Cleanup(false)]
        else if !env.damicoreOk || !env.csvExists then [CreateDatabase, TakeSnapshot(copied), RunDamicore, Cleanup(false)]
        else if env.reconcileRaises || env.stateWriteRaises then
          [CreateDatabase, TakeSnapshot(copied), RunDamicore, Reconcile(ClusterOutputFile), Cleanup(false)]
        else [CreateDatabase, TakeSnapshot(copied), RunDamicore, Reconcile(ClusterOutputFile), WriteState(env.later), Cleanup(false)]
  {
  }

  /** The container runs exactly when the trigger fires, the snapshot is built and it holds at least two copies. */
  lemma RoundRunsWhenReady(env: Env)
    ensures RunDamicore in Round(env) <==>
      CheckTrigger(env.all, env.unclustered, env.state, env.now) && !env.snapshotRaises
      && |Copyable(env.snapshotRows, env.files)| >= 2
  {
    RoundPaths(env);
  }

  /** Results are reconciled exactly when the container ran, reported success and left the CSV. */
  lemma RoundReconcilesOnSuccess(env: Env)
    ensures Reconcile(ClusterOutputFile) in Round(env) <==> RunDamicore in Round(env) && env.damicoreOk && env.csvExists
    ensures forall e :: e in Round(env) && e.Reconcile? ==> e.csv == ClusterOutputFile
  {
    RoundPaths(env);
  }

  /** The state is written only right after a reconciliation that did not raise. */
  lemma RoundStampsAfterReconcile(env: Env)
    ensures forall i :: 0 <= i < |Round(env)| && Round(env)[i].WriteState? ==>
      0 < i && Round(env)[i - 1] == Reconcile(ClusterOutputFile) && Round(env)[i].stamp == env.later
    ensures WriteState(env.later) in Round(env) <==>
      Reconcile(ClusterOutputFile) in Round(env) && !env.reconcileRaises && !env.stateWriteRaises
  {
    RoundPaths(env);
  }

  /** Once the trigger fires every path ends with the cleanup that keeps the CSV; otherwise nothing after the database check. */
  lemma RoundCleansUp(env: Env)
    ensures CheckTrigger(env.all, env.unclustered, env.state, env.now) ==>
      |Round(env)| >= 2 && Round(env)[|Round(env)| - 1] == Cleanup(false)
      && forall i :: 0 <= i < |Round(env)| - 1 ==> !Round(env)[i].Cleanup?
    ensures !CheckTrigger(env.all, env.unclustered, env.state, env.now) ==> Round(env) == [CreateDatabase]
  {
    RoundPaths(env);
  }
}
