/**
 * The synchronizer's two readers: the current partition read back from the
 * store's (coredump id, cluster id) rows, and the clusterer's CSV translated
 * from file names to coredump ids through the basename of each coredump's
 * `log_path` column.
 */
module SyncLoad {
  import opened Wrappers
  import Text
  import opened Records
  import opened Clusters

  // ---------------------------------------------------------------------------
  // The partition in the store
  // ---------------------------------------------------------------------------

  /** `clusters[cluster_id].add(coredump_id)` over the rows in order. */
  function GroupPairs(pairs: seq<(int, int)>): (c: Clustering<int, int>)
    ensures WellFormed(c)
  {
    if pairs == [] then EmptyClustering()
    else
      var last := pairs[|pairs| - 1];
      AddMember(GroupPairs(pairs[..|pairs| - 1]), last.1, last.0)
  }

  /** The loop of `extrair_clusters_do_db`, over the rows of `get_clustered_coredumps`. */
  method ExtractClusters(pairs: seq<(int, int)>) returns (c: Clustering<int, int>)
    ensures c == GroupPairs(pairs)
  {
    c := EmptyClustering();
    var i: nat := 0;
    while i < |pairs|
      invariant 0 <= i <= |pairs|
      invariant c == GroupPairs(pairs[..i])
    {
      var (d, k) := pairs[i];
      assert pairs[..i + 1][..i] == pairs[..i];
      c := AddMember(c, k, d);
      i := i + 1;
    }
    assert pairs[..|pairs|] == pairs;
  }

  /** Every row's coredump is in its cluster's set. */
  lemma {:induction false} GroupPairsComplete(pairs: seq<(int, int)>)
    ensures forall i | 0 <= i < |pairs| :: pairs[i].1 in GroupPairs(pairs).sets && pairs[i].0 in GroupPairs(pairs).sets[pairs[i].1]
  {
    if pairs != [] {
      var init := pairs[..|pairs| - 1];
      GroupPairsComplete(init);
      var c := GroupPairs(init);
      var last := pairs[|pairs| - 1];
      var r := AddMember(c, last.1, last.0);
      assert GroupPairs(pairs) == r;
      forall i | 0 <= i < |pairs| ensures pairs[i].1 in r.sets && pairs[i].0 in r.sets[pairs[i].1] {
        if i < |init| {
          assert init[i] == pairs[i];
          assert pairs[i].1 in c.sets && pairs[i].0 in c.sets[pairs[i].1];
        }
      }
    }
  }

  /** Nothing else is added: every member of every set comes from a row pairing the two. */
  lemma {:induction false} GroupPairsSound(pairs: seq<(int, int)>)
    ensures forall k, d | k in GroupPairs(pairs).sets && d in GroupPairs(pairs).sets[k] :: (d, k) in pairs
  {
    if pairs != [] {
      var init := pairs[..|pairs| - 1];
      GroupPairsSound(init);
      assert pairs == init + [pairs[|pairs| - 1]];
    }
  }

  /** No cluster read back from the store is empty. */
  lemma {:induction false} GroupPairsNoEmpty(pairs: seq<(int, int)>)
    ensures NoEmptyCluster(GroupPairs(pairs))
  {
    if pairs != [] {
      GroupPairsNoEmpty(pairs[..|pairs| - 1]);
    }
  }

  // ---------------------------------------------------------------------------
  // File name -> coredump id
  // ---------------------------------------------------------------------------

  /** Python's `int(v)` on a column value; NULL raises. */
  function IntOf(v: Value): Option<int> {
    match v
    case Int(i) => Some(i)
    case Str(s) => Text.ParseInt(s)
    case Null => None
  }

  /** `Path(v).name`; a NULL or integer column raises. */
  function NameOf(v: Value): Option<string> {
    match v
    case Str(s) => Some(Text.Basename(s))
    case _ => None
  }

  /** What one coredumps row adds to the path map. */
  datatype RowKey =
    | Skip                            // five columns or fewer: filtered out
    | Raise                           // `Path(row[5])` or `int(row[0])` raises
    | Key(name: string, id: int)      // base name of `log_path` -> coredump id

  function KeyOf(row: Row): RowKey {
    if |row| <= LogPathCol then Skip
    else
      match (NameOf(row[LogPathCol]), IntOf(row[CoredumpIdCol]))
      case (Some(name), Some(id)) => Key(name, id)
      case _ => Raise
  }

  function KeysOf(rows: seq<Row>): (r: seq<RowKey>)
    ensures |r| == |rows| && forall i | 0 <= i < |rows| :: r[i] == KeyOf(rows[i])
  {
    seq(|rows|, i requires 0 <= i < |rows| => KeyOf(rows[i]))
  }

  /**
   * The dict comprehension `{Path(row[5]).name: int(row[0]) ...}` over the
   * first `n` row keys: later rows overwrite earlier ones, and a row that
   * raises ends the whole translation.
   */
  function PathMapUpTo(keys: seq<RowKey>, n: nat): Option<map<string, int>>
    requires n <= |keys|
  {
    if n == 0 then Some(map[])
    else
      match PathMapUpTo(keys, n - 1)
      case None => None
      case Some(pm) =>
        match keys[n - 1]
        case Skip => Some(pm)
        case Raise => None
        case Key(name, id) => Some(pm[name := id])
  }

  /** The path map of the store's rows. */
  function PathMap(rows: seq<Row>): Option<map<string, int>> {
    PathMapUpTo(KeysOf(rows), |rows|)
  }

  /** The comprehension raises exactly when some row raises. */
  lemma {:induction false} PathMapRaises(keys: seq<RowKey>, n: nat)
    requires n <= |keys|
    ensures PathMapUpTo(keys, n).None? <==> exists i :: 0 <= i < n && keys[i].Raise?
  {
    if n > 0 {
      PathMapRaises(keys, n - 1);
    }
  }

  /** Among the first `n` row keys, the last one for base name `name`. */
  function LastNamed(keys: seq<RowKey>, name: string, n: nat): (r: Option<nat>)
    requires n <= |keys|
    ensures r.None? <==> forall i | 0 <= i < n :: !(keys[i].Key? && keys[i].name == name)
    ensures r.Some? ==> r.value < n && keys[r.value].Key? && keys[r.value].name == name
  {
    if n == 0 then None
    else if keys[n - 1].Key? && keys[n - 1].name == name then Some(n - 1)
    else LastNamed(keys, name, n - 1)
  }

  /** When it does not raise, a name maps to the id of the last row with that base name. */
  lemma {:induction false} PathMapLastWins(keys: seq<RowKey>, n: nat, name: string)
    requires n <= |keys| && PathMapUpTo(keys, n).Some?
    ensures name in PathMapUpTo(keys, n).value <==> LastNamed(keys, name, n).Some?
    ensures LastNamed(keys, name, n).Some? ==> PathMapUpTo(keys, n).value[name] == keys[LastNamed(keys, name, n).value].id
  {
    if n > 0 {
      PathMapLastWins(keys, n - 1, name);
    }
  }

  // ---------------------------------------------------------------------------
  // Translating the CSV
  // ---------------------------------------------------------------------------

  /** `(clusters_novos, coredumps_para_cluster)`. */
  datatype Translated = Translated(clusters: Clustering<string, int>, labelOf: map<int, string>)

  function NothingTranslated(): (r: Translated)
    ensures WellFormed(r.clusters)
  {
    Translated(EmptyClustering(), map[])
  }

  /** CSV row `row` has two fields or more and its stripped name is in the path map. */
  predicate Known(row: CsvRow, pm: map<string, int>) {
    |row| >= 2 && Text.Strip(row[0]) in pm
  }

  /** The CSV loop over its first `n` rows. */
  function TranslateUpTo(csv: seq<CsvRow>, pm: map<string, int>, n: nat): (r: Translated)
    requires n <= |csv|
    ensures WellFormed(r.clusters)
  {
    if n == 0 then NothingTranslated()
    else
      var prev := TranslateUpTo(csv, pm, n - 1);
      var row := csv[n - 1];
      if !Known(row, pm) then prev
      else
        var id := pm[Text.Strip(row[0])];
        var target := Text.Strip(row[1]);
        Translated(AddMember(prev.clusters, target, id), prev.labelOf[id := target])
  }

  /**
   * `carregar_e_traduzir_clusters_novos`: nothing when the store has no
   * coredump, when the path map raises or when the file is missing.
   */
  function Translate(coredumps: seq<Row>, fileExists: bool, csv: seq<CsvRow>): Translated {
    if coredumps == [] then NothingTranslated()
    else
      match PathMap(coredumps)
      case None => NothingTranslated()
      case Some(pm) => if !fileExists then NothingTranslated() else TranslateUpTo(csv, pm, |csv|)
  }

  /** The reader, row by row. */
  method LoadAndTranslate(coredumps: seq<Row>, fileExists: bool, csv: seq<CsvRow>) returns (r: Translated)
    ensures r == Translate(coredumps, fileExists, csv)
  {
    if coredumps == [] {
      return NothingTranslated();
    }
    var pathMap := PathMap(coredumps);
    if pathMap.None? || !fileExists {
      return NothingTranslated();
    }
    var pm := pathMap.value;
    r := NothingTranslated();
    var i: nat := 0;
    while i < |csv|
      invariant 0 <= i <= |csv|
      invariant r == TranslateUpTo(csv, pm, i)
    {
      var row := csv[i];
      if |row| >= 2 {
        var name := Text.Strip(row[0]);
        var target := Text.Strip(row[1]);
        if name in pm {
          var id := pm[name];
          r := Translated(AddMember(r.clusters, target, id), r.labelOf[id := target]);
        }
      }
      i := i + 1;
    }
  }

  /** CSV row `row` puts coredump `id` under label `target`. */
  predicate Places(row: CsvRow, pm: map<string, int>, target: string, id: int) {
    Known(row, pm) && pm[Text.Strip(row[0])] == id && Text.Strip(row[1]) == target
  }

  /** A label's set holds exactly the ids some accepted row places under it. */
  lemma {:induction false} TranslatedMembers(csv: seq<CsvRow>, pm: map<string, int>, n: nat, target: string, id: int)
    requires n <= |csv|
    ensures var c := TranslateUpTo(csv, pm, n).clusters;
      (target in c.sets && id in c.sets[target]) ==> exists i :: 0 <= i < n && Places(csv[i], pm, target, id)
    ensures var c := TranslateUpTo(csv, pm, n).clusters;
      (exists i :: 0 <= i < n && Places(csv[i], pm, target, id)) ==> target in c.sets && id in c.sets[target]
  {
    if n > 0 {
      TranslatedMembers(csv, pm, n - 1, target, id);
    }
  }

  /** Among the first `n` CSV rows, the last accepted one naming coredump `id`. */
  function LastPlaced(csv: seq<CsvRow>, pm: map<string, int>, id: int, n: nat): (r: Option<nat>)
    requires n <= |csv|
    ensures r.None? <==> forall i | 0 <= i < n :: !(Known(csv[i], pm) && pm[Text.Strip(csv[i][0])] == id)
    ensures r.Some? ==> r.value < n && Known(csv[r.value], pm) && pm[Text.Strip(csv[r.value][0])] == id
  {
    if n == 0 then None
    else if Known(csv[n - 1], pm) && pm[Text.Strip(csv[n - 1][0])] == id then Some(n - 1)
    else LastPlaced(csv, pm, id, n - 1)
  }

  /**
   * The coredump-to-label map is last-write-wins, and the label it keeps is
   * one whose set holds the coredump.
   */
  lemma {:induction false} TranslatedLabelOf(csv: seq<CsvRow>, pm: map<string, int>, n: nat, id: int)
    requires n <= |csv|
    ensures var r := TranslateUpTo(csv, pm, n);
      id in r.labelOf <==> LastPlaced(csv, pm, id, n).Some?
    ensures var r := TranslateUpTo(csv, pm, n);
      LastPlaced(csv, pm, id, n).Some? ==> r.labelOf[id] == Text.Strip(csv[LastPlaced(csv, pm, id, n).value][1])
    ensures var r := TranslateUpTo(csv, pm, n);
      id in r.labelOf ==> r.labelOf[id] in r.clusters.sets && id in r.clusters.sets[r.labelOf[id]]
  {
    if n > 0 {
      TranslatedLabelOf(csv, pm, n - 1, id);
      var i := LastPlaced(csv, pm, id, n);
      if i.Some? {
        TranslatedMembers(csv, pm, n, csv[i.value][1], id);
        assert Places(csv[i.value], pm, Text.Strip(csv[i.value][1]), id);
        TranslatedMembers(csv, pm, n, Text.Strip(csv[i.value][1]), id);
      }
    }
  }

  /** No translated label has an empty set. */
  lemma {:induction false} TranslatedNoEmpty(csv: seq<CsvRow>, pm: map<string, int>, n: nat)
    requires n <= |csv|
    ensures NoEmptyCluster(TranslateUpTo(csv, pm, n).clusters)
  {
    if n > 0 {
      TranslatedNoEmpty(csv, pm, n - 1);
    }
  }

  // ---------------------------------------------------------------------------
  // One coredump without a report hides every other
  // ---------------------------------------------------------------------------

  /**
   * As written, a single coredump whose `log_path` is NULL (its report was
   * never generated) makes `Path(None)` raise, and the whole CSV is dropped.
   */
  lemma NullLogPathLosesAll(coredumps: seq<Row>, fileExists: bool, csv: seq<CsvRow>, i: nat)
    requires i < |coredumps| && |coredumps[i]| > LogPathCol && coredumps[i][LogPathCol] == Null
    ensures Translate(coredumps, fileExists, csv) == NothingTranslated()
  {
    assert KeysOf(coredumps)[i] == Raise;
    PathMapRaises(KeysOf(coredumps), |coredumps|);
  }

  /** The path map as evidently intended: a row that cannot be converted is skipped. */
  function LivePathMapUpTo(keys: seq<RowKey>, n: nat): map<string, int>
    requires n <= |keys|
  {
    if n == 0 then map[]
    else
      var pm := LivePathMapUpTo(keys, n - 1);
      match keys[n - 1]
      case Key(name, id) => pm[name := id]
      case _ => pm
  }

  /**
   * The corrected map keeps the last row of every base name, whatever the
   * other rows hold, and equals the map as written whenever that one does
   * not raise.
   */
  lemma {:induction false} LivePathMapKeeps(keys: seq<RowKey>, n: nat, name: string)
    requires n <= |keys|
    ensures name in LivePathMapUpTo(keys, n) <==> LastNamed(keys, name, n).Some?
    ensures LastNamed(keys, name, n).Some? ==> LivePathMapUpTo(keys, n)[name] == keys[LastNamed(keys, name, n).value].id
    ensures PathMapUpTo(keys, n).Some? ==> PathMapUpTo(keys, n).value == LivePathMapUpTo(keys, n)
  {
    if n > 0 {
      LivePathMapKeeps(keys, n - 1, name);
    }
  }
}
