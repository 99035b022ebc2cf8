/**
 * `analysis_dashboard.py`: the summary counts over the store's lists, the
 * details of one cluster and of one coredump. The lists are inputs, read
 * by column position as the store returns them.
 */
module Dashboard {
  import opened Wrappers
  import opened Records

  /** `cd[3] if len(cd) > 3 else None`. */
  function ClusterOf(cd: Row): Value {
    if |cd| > ClusterIdCol then cd[ClusterIdCol] else Null
  }

  /** The records whose column 3 is `v`, in order. */
  function InCluster(rows: seq<Row>, v: Value): (r: seq<Row>)
    ensures |r| <= |rows|
    ensures forall cd :: cd in r <==> cd in rows && ClusterOf(cd) == v
  {
    if rows == [] then []
    else
      var init := InCluster(rows[..|rows| - 1], v);
      var last := rows[|rows| - 1];
      assert rows == rows[..|rows| - 1] + [last];
      if ClusterOf(last) == v then init + [last] else init
  }

  /** The records with a cluster, in order. */
  function Clustered(rows: seq<Row>): (r: seq<Row>)
    ensures |r| <= |rows|
    ensures forall cd :: cd in r <==> cd in rows && ClusterOf(cd) != Null
  {
    if rows == [] then []
    else
      var init := Clustered(rows[..|rows| - 1]);
      var last := rows[|rows| - 1];
      assert rows == rows[..|rows| - 1] + [last];
      if ClusterOf(last) != Null then init + [last] else init
  }

  /** A Python dict counting per key: its keys in insertion order and the count per key. */
  datatype Counts = Counts(order: seq<Value>, count: map<Value, nat>)

  /** `cluster_counts` after the loop over `rows`. */
  function CountsOf(rows: seq<Row>): Counts {
    if rows == [] then Counts([], map[])
    else
      var c := CountsOf(rows[..|rows| - 1]);
      var k := ClusterOf(rows[|rows| - 1]);
      if k == Null then c
      else if k in c.count then Counts(c.order, c.count[k := c.count[k] + 1])
      else Counts(c.order + [k], c.count[k := 1])
  }

  /** The counts of `keys`, in order. */
  function Sum(keys: seq<Value>, m: map<Value, nat>): nat {
    if keys == [] then 0 else (if keys[0] in m then m[keys[0]] else 0) + Sum(keys[1..], m)
  }

  predicate Distinct(keys: seq<Value>) {
    forall i, j :: 0 <= i < j < |keys| ==> keys[i] != keys[j]
  }

  /** What `get_coredumps_summary` answers. */
  datatype Summary = Summary(totalCoredumps: nat, unclusteredCount: nat, clusteredCount: int, totalClusters: nat,
                             coredumpsPerCluster: Counts)

  /** `get_coredumps_summary`: the three list lengths, their difference, and the count per cluster id. */
  method CoredumpsSummary(all: seq<Row>, unclustered: seq<Row>, clusters: seq<Row>) returns (s: Summary)
    ensures s.totalCoredumps == |all| && s.unclusteredCount == |unclustered| && s.totalClusters == |clusters|
    ensures s.clusteredCount == |all| - |unclustered|
    ensures s.coredumpsPerCluster == CountsOf(all)
  {
    var order: seq<Value> := [];
    var count: map<Value, nat> := map[];
    var i: nat := 0;
    while i < |all|
      invariant 0 <= i <= |all|
      invariant CountsOf(all[..i]) == Counts(order, count)
    {
      var cd := all[i];
      assert all[..i + 1][..i] == all[..i];
      var clusterId := if |cd| > ClusterIdCol then cd[ClusterIdCol] else Null;
      if clusterId != Null {
        if clusterId !in count {
          order := order + [clusterId];
        }
        count := count[clusterId := (if clusterId in count then count[clusterId] else 0) + 1];
      }
      i := i + 1;
    }
    assert all[..i] == all;
    s := Summary(|all|, |unclustered|, |all| - |unclustered|, |clusters|, Counts(order, count));
  }

  /** The dict's keys are the cluster ids seen, each once, and each counts the records of that cluster. */
  lemma {:induction false} CountsAgree(rows: seq<Row>)
    ensures Distinct(CountsOf(rows).order)
    ensures forall v :: v in CountsOf(rows).count <==> v in CountsOf(rows).order
    ensures forall v :: v in CountsOf(rows).count ==> v != Null && CountsOf(rows).count[v] == |InCluster(rows, v)|
    ensures forall v :: v != Null && v !in CountsOf(rows).count ==> InCluster(rows, v) == []
  {
    if rows != [] {
      var init := rows[..|rows| - 1];
      CountsAgree(init);
    }
  }

  lemma {:induction false} SumSnoc(keys: seq<Value>, k: Value, m: map<Value, nat>)
    ensures Sum(keys + [k], m) == Sum(keys, m) + (if k in m then m[k] else 0)
  {
    if keys != [] {
      assert (keys + [k])[1..] == keys[1..] + [k];
      SumSnoc(keys[1..], k, m);
    }
  }

  /** Changing the count of a key not listed leaves the sum alone. */
  lemma {:induction false} SumFrame(keys: seq<Value>, k: Value, x: nat, m: map<Value, nat>)
    requires k !in keys
    ensures Sum(keys, m[k := x]) == Sum(keys, m)
  {
    if keys != [] {
      SumFrame(keys[1..], k, x, m);
    }
  }

  /** One more on a listed key, listed once, adds one to the sum. */
  lemma {:induction false} SumBump(keys: seq<Value>, k: Value, m: map<Value, nat>)
    requires Distinct(keys) && k in keys && k in m
    ensures Sum(keys, m[k := m[k] + 1]) == Sum(keys, m) + 1
  {
    if keys[0] == k {
      assert k !in keys[1..];
      SumFrame(keys[1..], k, m[k] + 1, m);
    } else {
      SumBump(keys[1..], k, m);
    }
  }

  /** The counts add up to the number of records that have a cluster. */
  lemma {:induction false} CountsSum(rows: seq<Row>)
    ensures Sum(CountsOf(rows).order, CountsOf(rows).count) == |Clustered(rows)|
  {
    if rows != [] {
      var init := rows[..|rows| - 1];
      CountsSum(init);
      CountsAgree(init);
      var c := CountsOf(init);
      var k := ClusterOf(rows[|rows| - 1]);
      if k != Null {
        if k in c.count {
          SumBump(c.order, k, c.count);
        } else {
          SumFrame(c.order, k, 1, c.count);
          SumSnoc(c.order, k, c.count[k := 1]);
        }
      }
    }
  }

  /** What `get_cluster_details` answers. */
  datatype ClusterDetails = ClusterDetails(clusterId: int, clusterName: Value, coredumpCount: nat, coredumps: seq<Row>)

  /** The cluster row has the id in column 0. */
  predicate IsCluster(c: Row, clusterId: int) {
    |c| > 0 && c[0] == Int(clusterId)
  }

  /** `cluster_info[1] if len(cluster_info) > 1 else "Unknown"`. */
  function NameOf(c: Row): Value {
    if |c| > ClusterNameCol then c[ClusterNameCol] else Str("Unknown")
  }

  /**
   * `get_cluster_details`: the first cluster row with the id names the
   * cluster; its coredumps are the records whose column 3 is the id. None
   * when no row has the id.
   */
  method GetClusterDetails(clusters: seq<Row>, all: seq<Row>, clusterId: int) returns (r: Option<ClusterDetails>)
    ensures r.None? <==> forall i :: 0 <= i < |clusters| ==> !IsCluster(clusters[i], clusterId)
    ensures r.Some? ==> exists i :: (0 <= i < |clusters| && IsCluster(clusters[i], clusterId)
      && (forall j :: 0 <= j < i ==> !IsCluster(clusters[j], clusterId))
      && r.value.clusterName == NameOf(clusters[i]))
    ensures r.Some? ==> (r.value.clusterId == clusterId && r.value.coredumps == InCluster(all, Int(clusterId))
      && r.value.coredumpCount == |r.value.coredumps|)
  {
    var i: nat := 0;
    while i < |clusters|
      invariant 0 <= i <= |clusters|
      invariant forall j :: 0 <= j < i ==> !IsCluster(clusters[j], clusterId)
    {
      var c := clusters[i];
      if |c| > 0 && c[0] == Int(clusterId) {
        var coredumps := InCluster(all, Int(clusterId));
        return Some(ClusterDetails(clusterId, NameOf(c), |coredumps|, coredumps));
      }
      i := i + 1;
    }
    return None;
  }

  /** A cluster's details count what the summary counts for it. */
  lemma DetailsMatchSummary(all: seq<Row>, clusterId: int)
    ensures Int(clusterId) in CountsOf(all).count ==> CountsOf(all).count[Int(clusterId)] == |InCluster(all, Int(clusterId))|
    ensures Int(clusterId) !in CountsOf(all).count ==> |InCluster(all, Int(clusterId))| == 0
  {
    CountsAgree(all);
  }

  /** What `get_coredump_details` answers; an absent column reads as None, like a NULL. */
  datatype CoredumpDetails = CoredumpDetails(id: Value, deviceMac: Value, firmwareId: Value, clusterId: Value,
                                             receivedAt: Value, rawPath: Value, reportPath: Value)

  /** `cd[k] if len(cd) > k else None`. */
  function Column(cd: Row, k: nat): Value {
    if |cd| > k then cd[k] else Null
  }

  /** The record has the id in column 0. */
  predicate IsCoredump(cd: Row, coredumpId: int) {
    |cd| > 0 && cd[0] == Int(coredumpId)
  }

  /** The dict `get_coredump_details` builds: columns 0 to 6, in order, under its seven keys. */
  function DetailsAsWritten(cd: Row): CoredumpDetails
    requires |cd| > 0
  {
    CoredumpDetails(cd[0], Column(cd, 1), Column(cd, 2), Column(cd, 3), Column(cd, 4), Column(cd, 5), Column(cd, 6))
  }

  /** `get_coredump_details`: the first record with the id, or None. */
  method GetCoredumpDetails(all: seq<Row>, coredumpId: int) returns (r: Option<CoredumpDetails>)
    ensures r.None? <==> forall i :: 0 <= i < |all| ==> !IsCoredump(all[i], coredumpId)
    ensures r.Some? ==> exists i :: (0 <= i < |all| && IsCoredump(all[i], coredumpId)
      && (forall j :: 0 <= j < i ==> !IsCoredump(all[j], coredumpId))
      && r.value == DetailsAsWritten(all[i]))
  {
    var i: nat := 0;
    while i < |all|
      invariant 0 <= i <= |all|
      invariant forall j :: 0 <= j < i ==> !IsCoredump(all[j], coredumpId)
    {
      var cd := all[i];
      if |cd| > 0 && cd[0] == Int(coredumpId) {
        return Some(DetailsAsWritten(cd));
      }
      i := i + 1;
    }
    return None;
  }

  /**
   * The store's rows put the raw dump path in column 4, the log path in 5
   * and the reception time in 6, so the dict as written files the raw path
   * under "received_at", the log path under "raw_path" and the time under
   * "report_path".
   */
  lemma DetailsMislabelled(id: int, mac: string, firmwareId: int, clusterId: Value, rawDumpPath: string, logPath: Value, receivedAt: Value)
    ensures var d := DetailsAsWritten(CoredumpRow(id, mac, firmwareId, clusterId, rawDumpPath, logPath, receivedAt));
      d.receivedAt == Str(rawDumpPath) && d.rawPath == logPath && d.reportPath == receivedAt
  {
  }

  /** The details read by column name: each key takes the column the table defines for it. */
  function DetailsByColumn(cd: Row): CoredumpDetails
    requires |cd| > 0
  {
    CoredumpDetails(cd[CoredumpIdCol], Column(cd, DeviceMacCol), Column(cd, FirmwareIdOnCrashCol), Column(cd, ClusterIdCol),
                    Column(cd, ReceivedAtCol), Column(cd, RawDumpPathCol), Column(cd, LogPathCol))
  }

  /** The row a set of details describes, in the table's column order. */
  function RowOf(d: CoredumpDetails): Row {
    [d.id, d.deviceMac, d.firmwareId, d.clusterId, d.rawPath, d.reportPath, d.receivedAt]
  }

  /** Read by column name, a full record's details give the record back, and each key holds the value it names. */
  lemma DetailsByColumnRoundTrip(id: int, mac: string, firmwareId: int, clusterId: Value, rawDumpPath: string, logPath: Value, receivedAt: Value)
    ensures var cd := CoredumpRow(id, mac, firmwareId, clusterId, rawDumpPath, logPath, receivedAt);
      && RowOf(DetailsByColumn(cd)) == cd
      && DetailsByColumn(cd).receivedAt == receivedAt && DetailsByColumn(cd).rawPath == Str(rawDumpPath)
      && DetailsByColumn(cd).reportPath == logPath
  {
  }
}
