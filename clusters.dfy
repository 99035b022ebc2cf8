/**
 * Partitions of items into labelled clusters, kept in the insertion order of
 * a Python dict, and the two readers that build one from the clusterer's CSV
 * rows `<file name>,<cluster label>`.
 */
module Clusters {
  import opened Wrappers
  import Text
  import Ordering

  /** A dict from cluster key to its item set; `order` lists the keys as inserted. */
  datatype Clustering<K, T> = Clustering(order: seq<K>, sets: map<K, set<T>>)

  predicate WellFormed<K, T>(c: Clustering<K, T>) {
    && Ordering.Distinct(c.order)
    && (forall k | k in c.sets :: k in c.order)
    && (forall i | 0 <= i < |c.order| :: c.order[i] in c.sets)
  }

  /** Every cluster of the partition has at least one item. */
  predicate NoEmptyCluster<K, T>(c: Clustering<K, T>) {
    forall k | k in c.sets :: c.sets[k] != {}
  }

  function EmptyClustering<K, T>(): (c: Clustering<K, T>)
    ensures WellFormed(c) && c.sets == map[]
  {
    Clustering([], map[])
  }

  /** `clusters[k].add(x)` on a defaultdict(set). */
  function AddMember<K, T>(c: Clustering<K, T>, k: K, x: T): (r: Clustering<K, T>)
    requires WellFormed(c)
    ensures WellFormed(r)
    ensures r.sets.Keys == c.sets.Keys + {k}
    ensures r.sets[k] == (if k in c.sets then c.sets[k] else {}) + {x}
    ensures forall j :: j in c.sets && j != k ==> r.sets[j] == c.sets[j]
    ensures r.order == if k in c.sets then c.order else c.order + [k]
  {
    if k in c.sets then Clustering(c.order, c.sets[k := c.sets[k] + {x}])
    else Clustering(c.order + [k], c.sets[k := {x}])
  }

  /** One parsed CSV row. */
  type CsvRow = seq<string>

  predicate PairRow(row: CsvRow) { |row| == 2 }

  /** The rows of two fields, grouped label -> set of names, both stripped. */
  function GroupRows(rows: seq<CsvRow>): (c: Clustering<string, string>)
    ensures WellFormed(c)
  {
    if rows == [] then EmptyClustering()
    else
      var c := GroupRows(rows[..|rows| - 1]);
      var row := rows[|rows| - 1];
      if PairRow(row) then AddMember(c, Text.Strip(row[1]), Text.Strip(row[0])) else c
  }

  /** Row `row` is a two-field row carrying this key. */
  predicate CarriesKey(row: CsvRow, key: string) {
    PairRow(row) && Text.Strip(row[1]) == key
  }

  /** Row `row` is a two-field row pairing this name with this key. */
  predicate Pairs(row: CsvRow, key: string, name: string) {
    CarriesKey(row, key) && Text.Strip(row[0]) == name
  }

  /** A key is present exactly when some two-field row carries it. */
  lemma {:induction false} GroupRowsKeys(rows: seq<CsvRow>, key: string)
    ensures key in GroupRows(rows).sets <==> exists i :: 0 <= i < |rows| && CarriesKey(rows[i], key)
  {
    if rows != [] {
      var init := rows[..|rows| - 1];
      GroupRowsKeys(init, key);
      if exists i :: 0 <= i < |init| && CarriesKey(init[i], key) {
        var i :| 0 <= i < |init| && CarriesKey(init[i], key);
        assert rows[i] == init[i];
      }
      if exists i :: 0 <= i < |rows| && CarriesKey(rows[i], key) {
        var i :| 0 <= i < |rows| && CarriesKey(rows[i], key);
        if i < |init| { assert init[i] == rows[i]; }
      }
    }
  }

  /** A name is in a key's set exactly when some two-field row pairs the two. */
  lemma {:induction false} GroupRowsMembers(rows: seq<CsvRow>, key: string, name: string)
    ensures (key in GroupRows(rows).sets && name in GroupRows(rows).sets[key]) <==>
      exists i :: 0 <= i < |rows| && Pairs(rows[i], key, name)
  {
    if rows != [] {
      var init := rows[..|rows| - 1];
      var row := rows[|rows| - 1];
      GroupRowsMembers(init, key, name);
      assert rows == init + [row];
      MembersStep(init, row, key, name);
    }
  }

  /** One more row: the set of `key` gains `name` exactly when that row pairs the two. */
  lemma MembersStep(init: seq<CsvRow>, row: CsvRow, key: string, name: string)
    requires (key in GroupRows(init).sets && name in GroupRows(init).sets[key]) <==>
      exists i :: 0 <= i < |init| && Pairs(init[i], key, name)
    ensures (key in GroupRows(init + [row]).sets && name in GroupRows(init + [row]).sets[key]) <==>
      exists i :: 0 <= i < |init + [row]| && Pairs((init + [row])[i], key, name)
  {
    assert (init + [row])[..|init|] == init;
    if PairRow(row) {
      MemberAfterAdd(GroupRows(init), Text.Strip(row[1]), Text.Strip(row[0]), key, name);
    }
    PairsSnoc(init, row, key, name);
  }

  /** Some row pairs the two exactly when some row before the last does or the last does. */
  lemma PairsSnoc(init: seq<CsvRow>, row: CsvRow, key: string, name: string)
    ensures (exists i :: 0 <= i < |init + [row]| && Pairs((init + [row])[i], key, name)) <==>
      (exists i :: 0 <= i < |init| && Pairs(init[i], key, name)) || Pairs(row, key, name)
  {
    var rows := init + [row];
    if exists i :: 0 <= i < |init| && Pairs(init[i], key, name) {
      var i :| 0 <= i < |init| && Pairs(init[i], key, name);
      assert rows[i] == init[i] && Pairs(rows[i], key, name);
    }
    if Pairs(row, key, name) {
      assert rows[|init|] == row && Pairs(rows[|init|], key, name);
    }
    if exists i :: 0 <= i < |rows| && Pairs(rows[i], key, name) {
      var i :| 0 <= i < |rows| && Pairs(rows[i], key, name);
      if i < |init| {
        assert init[i] == rows[i] && Pairs(init[i], key, name);
      } else {
        assert rows[i] == row;
      }
    }
  }

  /** After `clusters[k].add(x)`, `name` is in the set of `key` exactly when it was already or it is the pair just added. */
  lemma MemberAfterAdd<K, T>(c: Clustering<K, T>, k: K, x: T, key: K, name: T)
    requires WellFormed(c)
    ensures (key in AddMember(c, k, x).sets && name in AddMember(c, k, x).sets[key]) <==>
      (key in c.sets && name in c.sets[key]) || (key == k && name == x)
  {
  }

  /** Grouping never yields an empty cluster. */
  lemma {:induction false} GroupRowsNoEmpty(rows: seq<CsvRow>)
    ensures NoEmptyCluster(GroupRows(rows))
  {
    if rows != [] {
      GroupRowsNoEmpty(rows[..|rows| - 1]);
    }
  }

  /**
   * The reader of the reconciler: a missing file gives None, rows whose field
   * count is not two are skipped, the others are grouped by stripped label.
   */
  method LoadSkippingBadRows(fileExists: bool, rows: seq<CsvRow>) returns (r: Option<Clustering<string, string>>)
    ensures r == if fileExists then Some(GroupRows(rows)) else None
  {
    if !fileExists {
      return None;
    }
    var c := EmptyClustering();
    var i: nat := 0;
    while i < |rows|
      invariant 0 <= i <= |rows|
      invariant c == GroupRows(rows[..i])
    {
      var row := rows[i];
      assert rows[..i + 1][..i] == rows[..i];
      if |row| == 2 {
        c := AddMember(c, Text.Strip(row[1]), Text.Strip(row[0]));
      }
      i := i + 1;
    }
    assert rows[..|rows|] == rows;
    return Some(c);
  }

  /** What the older reader yields: the file is missing, a row cannot be unpacked, or the grouping. */
  datatype StrictLoad = FileMissing | UnpackError(row: nat) | Loaded(clusters: Clustering<string, string>)

  /** The index of the first row whose field count is not two, if any. */
  function FirstBadRow(rows: seq<CsvRow>): (r: Option<nat>)
    ensures r.None? <==> forall i :: 0 <= i < |rows| ==> PairRow(rows[i])
    ensures r.Some? ==> r.value < |rows| && !PairRow(rows[r.value]) && forall i :: 0 <= i < r.value ==> PairRow(rows[i])
  {
    if rows == [] then None
    else if !PairRow(rows[0]) then Some(0)
    else
      match FirstBadRow(rows[1..])
      case None => None
      case Some(k) => Some(k + 1)
  }

  lemma {:induction false} FirstBadRowStep(rows: seq<CsvRow>, i: nat)
    requires i < |rows| && FirstBadRow(rows[..i]).None?
    ensures PairRow(rows[i]) ==> FirstBadRow(rows[..i + 1]).None?
    ensures !PairRow(rows[i]) ==> FirstBadRow(rows) == Some(i)
  {
    assert forall j :: 0 <= j < i ==> rows[..i][j] == rows[j];
    assert forall j :: 0 <= j < i + 1 ==> rows[..i + 1][j] == rows[j];
  }

  /**
   * The reader of the Jaccard-only script: unpacking a row of the wrong size
   * raises, which ends the read; a missing file gives None.
   */
  method LoadUnpackingRows(fileExists: bool, rows: seq<CsvRow>) returns (r: StrictLoad)
    ensures !fileExists ==> r == FileMissing
    ensures fileExists && FirstBadRow(rows).Some? ==> r == UnpackError(FirstBadRow(rows).value)
    ensures fileExists && FirstBadRow(rows).None? ==> r == Loaded(GroupRows(rows))
  {
    if !fileExists {
      return FileMissing;
    }
    var c := EmptyClustering();
    var i: nat := 0;
    while i < |rows|
      invariant 0 <= i <= |rows|
      invariant FirstBadRow(rows[..i]).None?
      invariant c == GroupRows(rows[..i])
    {
      var row := rows[i];
      if |row| != 2 {
        FirstBadRowStep(rows, i);
        return UnpackError(i);
      }
      assert rows[..i + 1][..i] == rows[..i];
      FirstBadRowStep(rows, i);
      c := AddMember(c, Text.Strip(row[1]), Text.Strip(row[0]));
      i := i + 1;
    }
    assert rows[..|rows|] == rows;
    return Loaded(c);
  }
}
