/**
 * The checked CSV loader: every CSV row is projected onto the 22 columns of
 * `vehicles` (empty text becoming NULL), its key is looked up first, a row
 * whose key is taken is skipped, a failing insert is rolled back, and a
 * progress message is emitted every 50000 rows.
 */
module PostgresTst {
  import opened Wrappers
  import opened VehicleStore

  /** `checkpoints['processing_interval']`. */
  const ProcessingInterval: nat := 50000

  /** A column's cleaned value: the CSV text when the column is present and non-empty, NULL otherwise. */
  function CleanValue(row: CsvRow, key: string): Field
  {
    if key in row && Truthy(row[key]) then row[key] else None
  }

  /** `cleaned_row`: the CSV row projected onto the required keys, empty and missing values as NULL. */
  function CleanRequired(row: CsvRow): DbRow
  {
    CleanOver(row, Columns)
  }

  /** The row projected onto the keys `keys`, each by its cleaned value. */
  function CleanOver(row: CsvRow, keys: seq<string>): DbRow
  {
    if keys == [] then map[]
    else CleanOver(row, keys[..|keys| - 1])[keys[|keys| - 1] := CleanValue(row, keys[|keys| - 1])]
  }

  lemma {:induction false} CleanOverValues(row: CsvRow, keys: seq<string>)
    ensures var r := CleanOver(row, keys);
      forall k :: k in r <==> k in keys
    ensures var r := CleanOver(row, keys);
      forall k :: k in r ==> r[k] == CleanValue(row, k)
  {
    if keys != [] {
      var init := keys[..|keys| - 1];
      CleanOverValues(row, init);
      assert keys == init + [keys[|keys| - 1]];
    }
  }

  /**
   * The cleaned row has exactly the required keys, whatever other columns
   * the CSV has; a value survives only when it is present and non-empty, and
   * everything else is NULL.
   */
  lemma CleanRequiredValues(row: CsvRow)
    ensures var r := CleanRequired(row);
      && (forall k :: k in r <==> k in Columns)
      && (forall k :: k in r && r[k].Some? ==> k in row && r[k] == row[k] && r[k].value != "")
      && (forall k :: k in Columns && k in row && Truthy(row[k]) ==> r[k] == row[k])
  {
    CleanOverValues(row, Columns);
  }

  /** `cleaned_row['id']` is the cleaned value of the CSV's `id` column. */
  lemma CleanedId(row: CsvRow)
    ensures "id" in CleanRequired(row) && CleanRequired(row)["id"] == CleanValue(row, "id")
  {
    CleanOverValues(row, Columns);
    assert Columns[0] == "id";
  }

  /** Columns outside the required keys never reach the cleaned row. */
  lemma CleanIgnoresExtra(a: CsvRow, b: CsvRow)
    requires forall k :: k in Columns ==> (k in a <==> k in b)
    requires forall k :: k in Columns && k in a ==> a[k] == b[k]
    ensures CleanRequired(a) == CleanRequired(b)
  {
    CleanOverValues(a, Columns);
    CleanOverValues(b, Columns);
    forall k | k in Columns ensures CleanValue(a, k) == CleanValue(b, k) {
    }
  }

  /** Cleaning a cleaned row changes nothing. */
  lemma CleanIdempotent(row: CsvRow)
    ensures CleanRequired(CleanRequired(row)) == CleanRequired(row)
  {
    var c := CleanRequired(row);
    CleanOverValues(row, Columns);
    CleanOverValues(c, Columns);
    forall k | k in Columns ensures CleanValue(c, k) == c[k] {
    }
  }

  /** What became of one CSV row. */
  datatype Outcome = Skipped | Inserted | RolledBack

  /** The key the row's cleaned `id` (`cleaned_row['id']`) gives, if it gives one. */
  function RowId(row: CsvRow): Option<int>
  {
    ParseId(CleanValue(row, "id"))
  }

  /**
   * The fate of a CSV row against the table `rows`. A NULL or malformed key
   * makes the lookup or the insert raise, and the row is rolled back; a key
   * already present is skipped; otherwise the insert runs, and the database
   * may still refuse the row for its other values (`rejects`).
   */
  function RowOutcome(rows: map<int, DbRow>, row: CsvRow, rejects: DbRow -> bool): Outcome
  {
    match RowId(row)
    case None => RolledBack
    case Some(id) =>
      if id in rows then Skipped
      else if rejects(CleanRequired(row)) then RolledBack
      else Inserted
  }

  /** The table after the row: the cleaned row is added under its key when the row is inserted. */
  function AfterRow(rows: map<int, DbRow>, row: CsvRow, rejects: DbRow -> bool): map<int, DbRow>
  {
    if RowOutcome(rows, row, rejects) == Inserted then rows[RowId(row).value := CleanRequired(row)] else rows
  }

  /** One row changes nothing but, when it is inserted, adds its cleaned row under its own new key. */
  lemma AfterRowEffect(rows: map<int, DbRow>, row: CsvRow, rejects: DbRow -> bool)
    ensures var r := AfterRow(rows, row, rejects);
      && (forall id :: id in rows ==> id in r && r[id] == rows[id])
      && (forall id :: id in r && id !in rows ==> RowId(row) == Some(id) && r[id] == CleanRequired(row))
      && (r.Keys == rows.Keys <==> RowOutcome(rows, row, rejects) != Inserted)
      && (RowOutcome(rows, row, rejects) != Inserted ==> r == rows)
  {
  }

  /** The loader's state after some rows: the table, `row_count` and the progress counts emitted so far. */
  datatype Progress = Progress(rows: map<int, DbRow>, rowCount: nat, reports: seq<nat>)

  /** One turn of the loop: count the row, apply it to the table, and report progress unless it was skipped. */
  function Step(p: Progress, row: CsvRow, rejects: DbRow -> bool): Progress
  {
    var n := p.rowCount + 1;
    var reported := RowOutcome(p.rows, row, rejects) != Skipped && n % ProcessingInterval == 0;
    Progress(AfterRow(p.rows, row, rejects), n, if reported then p.reports + [n] else p.reports)
  }

  /** The loader's state after the rows `csv`, starting from the table `rows0`. */
  function LoadAll(rows0: map<int, DbRow>, csv: seq<CsvRow>, rejects: DbRow -> bool): Progress
  {
    if csv == [] then Progress(rows0, 0, [])
    else Step(LoadAll(rows0, csv[..|csv| - 1], rejects), csv[|csv| - 1], rejects)
  }

  /**
   * The main loop over the CSV rows. `rejects` says which cleaned rows the
   * database refuses to insert (a value that does not convert to its column's
   * type); the refused insert is rolled back and the loop goes on.
   */
  method LoadRows(table: VehiclesTable, csv: seq<CsvRow>, rejects: DbRow -> bool)
    returns (rowCount: nat, reports: seq<nat>)
    modifies table
    ensures Progress(table.rows, rowCount, reports) == LoadAll(old(table.rows), csv, rejects)
  {
    ghost var rows0 := table.rows;
    rowCount := 0;
    reports := [];
    var i := 0;
    while i < |csv|
      invariant 0 <= i <= |csv|
      invariant table.rows == LoadAll(rows0, csv[..i], rejects).rows
      invariant rowCount == LoadAll(rows0, csv[..i], rejects).rowCount
      invariant reports == LoadAll(rows0, csv[..i], rejects).reports
    {
      var row := csv[i];
      assert csv[..i + 1][..i] == csv[..i];
      ghost var before := Progress(table.rows, rowCount, reports);
      assert LoadAll(rows0, csv[..i + 1], rejects) == Step(before, row, rejects);
      i := i + 1;
      rowCount := rowCount + 1;
      var cleaned := CleanRequired(row);
      CleanedId(row);
      var id := ParseId(cleaned["id"]);
      if id.Some? {
        var found := table.Exists(id.value);
        if found {
          continue;
        }
        if !rejects(cleaned) {
          var ok := table.Insert(id.value, cleaned);
        }
      }
      if rowCount % ProcessingInterval == 0 {
        reports := reports + [rowCount];
      }
    }
    assert csv[..i] == csv;
  }

  /** `row_count` counts every row read, skipped and failed ones included. */
  lemma {:induction false} LoadCount(rows0: map<int, DbRow>, csv: seq<CsvRow>, rejects: DbRow -> bool)
    ensures LoadAll(rows0, csv, rejects).rowCount == |csv|
  {
    if csv != [] {
      LoadCount(rows0, csv[..|csv| - 1], rejects);
    }
  }

  /** Rows already in the table are never changed. */
  lemma {:induction false} LoadKeepsExisting(rows0: map<int, DbRow>, csv: seq<CsvRow>, rejects: DbRow -> bool)
    ensures forall id :: id in rows0 ==> id in LoadAll(rows0, csv, rejects).rows && LoadAll(rows0, csv, rejects).rows[id] == rows0[id]
  {
    if csv != [] {
      LoadKeepsExisting(rows0, csv[..|csv| - 1], rejects);
    }
  }

  /** The row gives key `id` and the database accepts its values. */
  predicate Accepts(row: CsvRow, rejects: DbRow -> bool, id: int)
  {
    RowId(row) == Some(id) && !rejects(CleanRequired(row))
  }

  /** Some row of `csv` with key `id` is accepted. */
  predicate AcceptedIn(csv: seq<CsvRow>, rejects: DbRow -> bool, id: int)
  {
    exists k :: 0 <= k < |csv| && Accepts(csv[k], rejects, id)
  }

  lemma AcceptedInSnoc(csv: seq<CsvRow>, rejects: DbRow -> bool, id: int)
    requires csv != []
    ensures AcceptedIn(csv, rejects, id) <==>
      AcceptedIn(csv[..|csv| - 1], rejects, id) || Accepts(csv[|csv| - 1], rejects, id)
  {
    var init := csv[..|csv| - 1];
    if AcceptedIn(csv, rejects, id) && !Accepts(csv[|csv| - 1], rejects, id) {
      var k :| 0 <= k < |csv| && Accepts(csv[k], rejects, id);
      assert init[k] == csv[k];
    }
    if AcceptedIn(init, rejects, id) {
      var k :| 0 <= k < |init| && Accepts(init[k], rejects, id);
      assert csv[k] == init[k];
    }
  }

  /** One row adds its key to the table exactly when it is accepted. */
  lemma AfterRowKeys(rows: map<int, DbRow>, row: CsvRow, rejects: DbRow -> bool, id: int)
    ensures id in AfterRow(rows, row, rejects) <==> id in rows || Accepts(row, rejects, id)
  {
  }

  /** A key is in the final table exactly when it was there before or some row with that key was accepted. */
  lemma {:induction false} LoadKeys(rows0: map<int, DbRow>, csv: seq<CsvRow>, rejects: DbRow -> bool, id: int)
    ensures id in LoadAll(rows0, csv, rejects).rows <==> id in rows0 || AcceptedIn(csv, rejects, id)
  {
    if csv != [] {
      var init := csv[..|csv| - 1];
      LoadKeys(rows0, init, rejects, id);
      AcceptedInSnoc(csv, rejects, id);
      AfterRowKeys(LoadAll(rows0, init, rejects).rows, csv[|csv| - 1], rejects, id);
    }
  }

  /** A row never replaces a stored row. */
  lemma StoredRowKept(rows: map<int, DbRow>, row: CsvRow, rejects: DbRow -> bool, id: int)
    requires id in rows
    ensures id in AfterRow(rows, row, rejects) && AfterRow(rows, row, rejects)[id] == rows[id]
  {
  }

  /** A row accepted under a new key is stored, cleaned, under that key. */
  lemma AcceptedRowStored(rows: map<int, DbRow>, row: CsvRow, rejects: DbRow -> bool, id: int)
    requires id !in rows && Accepts(row, rejects, id)
    ensures id in AfterRow(rows, row, rejects) && AfterRow(rows, row, rejects)[id] == CleanRequired(row)
  {
  }

  /**
   * A key that was not in the table keeps the row of its first accepted
   * occurrence: later rows with the same key find it present and are skipped.
   */
  lemma {:induction false} LoadFirstKept(rows0: map<int, DbRow>, csv: seq<CsvRow>, rejects: DbRow -> bool, id: int, k: int)
    requires id !in rows0
    requires FirstAcceptedAt(csv, rejects, id, k)
    ensures id in LoadAll(rows0, csv, rejects).rows
    ensures LoadAll(rows0, csv, rejects).rows[id] == CleanRequired(csv[k])
  {
    var init := csv[..|csv| - 1];
    var p := LoadAll(rows0, init, rejects);
    if k < |init| {
      FirstAcceptedPrefix(csv, rejects, id, k, |init|);
      LoadFirstKept(rows0, init, rejects, id, k);
      StoredRowKept(p.rows, csv[|csv| - 1], rejects, id);
    } else {
      FirstAcceptedPrefix(csv, rejects, id, k, k);
      LoadKeys(rows0, init, rejects, id);
      AcceptedRowStored(p.rows, csv[k], rejects, id);
    }
  }

  /** Row `k` is the first row of `csv` accepted under key `id`. */
  predicate FirstAcceptedAt(csv: seq<CsvRow>, rejects: DbRow -> bool, id: int, k: int)
  {
    0 <= k < |csv| && Accepts(csv[k], rejects, id) && forall j :: 0 <= j < k ==> !Accepts(csv[j], rejects, id)
  }

  /** Cutting the rows after the first accepted one keeps it first, and before it none is accepted. */
  lemma FirstAcceptedPrefix(csv: seq<CsvRow>, rejects: DbRow -> bool, id: int, k: int, n: int)
    requires FirstAcceptedAt(csv, rejects, id, k) && k <= n <= |csv|
    ensures k < n ==> FirstAcceptedAt(csv[..n], rejects, id, k)
    ensures !AcceptedIn(csv[..k], rejects, id)
  {
    var pre := csv[..n];
    forall j | 0 <= j < n ensures pre[j] == csv[j] {
    }
    var before := csv[..k];
    forall j | 0 <= j < k ensures before[j] == csv[j] {
    }
  }

  /** Whether the row read as number `c` (counting from 1) was skipped as a duplicate. */
  predicate SkippedAt(rows0: map<int, DbRow>, csv: seq<CsvRow>, rejects: DbRow -> bool, c: int)
    requires 0 < c <= |csv|
  {
    RowOutcome(LoadAll(rows0, csv[..c - 1], rejects).rows, csv[c - 1], rejects) == Skipped
  }

  /** Whether progress is reported after row number `c`. */
  predicate ReportedAt(rows0: map<int, DbRow>, csv: seq<CsvRow>, rejects: DbRow -> bool, c: int)
  {
    0 < c <= |csv| && c % ProcessingInterval == 0 && !SkippedAt(rows0, csv, rejects, c)
  }

  lemma ReportedAtSnoc(rows0: map<int, DbRow>, csv: seq<CsvRow>, rejects: DbRow -> bool, c: int)
    requires csv != [] && c < |csv|
    ensures ReportedAt(rows0, csv, rejects, c) == ReportedAt(rows0, csv[..|csv| - 1], rejects, c)
  {
    if 0 < c {
      var init := csv[..|csv| - 1];
      assert csv[..c - 1] == init[..c - 1];
      assert csv[c - 1] == init[c - 1];
    }
  }

  /** The progress counts are increasing and each is the number of a row read. */
  lemma {:induction false} LoadReportsOrdered(rows0: map<int, DbRow>, csv: seq<CsvRow>, rejects: DbRow -> bool)
    ensures var reports := LoadAll(rows0, csv, rejects).reports;
      && (forall i :: 0 <= i < |reports| ==> 0 < reports[i] <= |csv|)
      && (forall i, j :: 0 <= i < j < |reports| ==> reports[i] < reports[j])
  {
    if csv != [] {
      var init := csv[..|csv| - 1];
      LoadReportsOrdered(rows0, init, rejects);
      LoadCount(rows0, init, rejects);
    }
  }

  /**
   * Progress is reported after row number `c` exactly when `c` is a multiple
   * of 50000 and that row was not skipped, since `continue` bypasses the
   * report.
   */
  lemma {:induction false} LoadReports(rows0: map<int, DbRow>, csv: seq<CsvRow>, rejects: DbRow -> bool, c: int)
    ensures c in LoadAll(rows0, csv, rejects).reports <==> ReportedAt(rows0, csv, rejects, c)
  {
    if csv != [] {
      var init := csv[..|csv| - 1];
      LoadCount(rows0, init, rejects);
      if c < |csv| {
        LoadReports(rows0, init, rejects, c);
        ReportedAtSnoc(rows0, csv, rejects, c);
      } else {
        LoadReportsOrdered(rows0, init, rejects);
      }
    }
  }
}
