/**
 * The conflict-ignoring CSV loader: every CSV row loses four columns and
 * has its empty values turned into NULL, and is inserted with
 * `ON CONFLICT (id) DO NOTHING`. Nothing catches an error, so the first row
 * the insert cannot take ends the run; the rows before it stay committed.
 */
module PostgresLoad {
  import opened Wrappers
  import opened VehicleStore

  /** The CSV columns the loader always removes. */
  const Dropped: set<string> := {"region_url", "image_url", "description", "posting_date"}

  /** `cleaned_row`: every CSV column except the dropped ones, empty values as NULL. */
  function CleanDropping(row: CsvRow): DbRow
  {
    map k | k in row && k !in Dropped :: if Truthy(row[k]) then row[k] else None
  }

  /**
   * The cleaned row keeps exactly the CSV columns outside the dropped four,
   * each with its CSV value when that is non-empty and NULL otherwise.
   */
  lemma CleanDroppingValues(row: CsvRow)
    ensures var r := CleanDropping(row);
      && (forall k :: k in r <==> k in row && k !in Dropped)
      && (forall k :: k in r && Truthy(row[k]) ==> r[k] == row[k])
      && (forall k :: k in r && !Truthy(row[k]) ==> r[k] == None)
  {
  }

  /** Cleaning twice is cleaning once. */
  lemma CleanDroppingIdempotent(row: CsvRow)
    ensures CleanDropping(CleanDropping(row)) == CleanDropping(row)
  {
    var c := CleanDropping(row);
    forall k | k in c ensures (if Truthy(c[k]) then c[k] else None) == c[k] {
    }
  }

  /** The cleaned row supplies every named parameter of the insert statement. */
  predicate HasColumns(c: DbRow)
  {
    forall k :: k in Columns ==> k in c
  }

  /** The values the insert statement takes from the cleaned row: one per column of `vehicles`; other keys are not used. */
  function Params(c: DbRow): DbRow
    requires HasColumns(c)
  {
    map k | k in Columns :: c[k]
  }

  /** The parameters hold exactly the columns of `vehicles`, with the cleaned row's values. */
  lemma ParamsValues(c: DbRow)
    requires HasColumns(c)
    ensures forall k :: k in Params(c) <==> k in Columns
    ensures forall k :: k in Params(c) ==> Params(c)[k] == c[k]
  {
  }

  /** The `id` parameter is the cleaned row's `id`. */
  lemma ParamsId(c: DbRow)
    requires HasColumns(c)
    ensures "id" in c && "id" in Params(c) && Params(c)["id"] == c["id"]
  {
    assert Columns[0] == "id";
  }

  /** What the insert statement does with one row: add `stored` under `id` unless the key is taken. */
  datatype Insertion = Insertion(id: int, stored: DbRow)

  /**
   * The insert for one CSV row, or None when the statement raises: the
   * cleaned row lacks a column (building the parameters raises), its `id` is
   * NULL or does not read as a `BIGINT`, or the database refuses its other
   * values (`rejects` says which parameter rows it refuses).
   */
  function Decode(row: CsvRow, rejects: DbRow -> bool): Option<Insertion>
  {
    var c := CleanDropping(row);
    if !HasColumns(c) then None
    else
      ParamsId(c);
      var params := Params(c);
      match ParseId(params["id"])
      case None => None
      case Some(id) => if rejects(params) then None else Some(Insertion(id, params))
  }

  /** `Decode` for a fixed `rejects`, as a function of the row. */
  function Decoder(rejects: DbRow -> bool): CsvRow -> Option<Insertion>
  {
    row => Decode(row, rejects)
  }

  /** The run so far: the table, the number of rows inserted or ignored, and whether a row raised. */
  datatype Run = Run(rows: map<int, DbRow>, processed: nat, failed: bool)

  /** The run over the rows `csv` from the table `rows0`, `decode` giving each row's insert; rows after a failing row are never read. */
  function RunAll(rows0: map<int, DbRow>, csv: seq<CsvRow>, decode: CsvRow -> Option<Insertion>): Run
  {
    if csv == [] then Run(rows0, 0, false)
    else
      var p := RunAll(rows0, csv[..|csv| - 1], decode);
      if p.failed then p
      else match decode(csv[|csv| - 1])
        case None => Run(p.rows, p.processed, true)
        case Some(ins) => Run(InsertOne(p.rows, ins.id, ins.stored), p.processed + 1, false)
  }

  /** The loop of the script: it ends at the first row that raises. */
  method LoadRows(table: VehiclesTable, csv: seq<CsvRow>, rejects: DbRow -> bool)
    returns (processed: nat, failed: bool)
    modifies table
    ensures Run(table.rows, processed, failed) == RunAll(old(table.rows), csv, Decoder(rejects))
  {
    ghost var rows0 := table.rows;
    ghost var decode := Decoder(rejects);
    var i := 0;
    failed := false;
    while i < |csv|
      invariant 0 <= i <= |csv|
      invariant RunAll(rows0, csv[..i], decode) == Run(table.rows, i, false)
    {
      var row := csv[i];
      RunSnoc(rows0, csv, decode, i);
      DecoderApply(rejects, row);
      var cleaned := CleanDropping(row);
      if !HasColumns(cleaned) {
        failed := true;
        break;
      }
      var params := Params(cleaned);
      ParamsId(cleaned);
      var id := ParseId(params["id"]);
      if id.None? || rejects(params) {
        failed := true;
        break;
      }
      table.InsertIfAbsent(id.value, params);
      i := i + 1;
    }
    processed := i;
    if failed {
      RunStaysFailed(rows0, csv, decode, i + 1);
    } else {
      assert csv[..i] == csv;
    }
  }

  /** One more row after a run that has not failed. */
  lemma RunSnoc(rows0: map<int, DbRow>, csv: seq<CsvRow>, decode: CsvRow -> Option<Insertion>, i: int)
    requires 0 <= i < |csv| && !RunAll(rows0, csv[..i], decode).failed
    ensures var p := RunAll(rows0, csv[..i], decode);
      RunAll(rows0, csv[..i + 1], decode) ==
        match decode(csv[i])
        case None => Run(p.rows, p.processed, true)
        case Some(ins) => Run(InsertOne(p.rows, ins.id, ins.stored), p.processed + 1, false)
  {
    assert csv[..i + 1][..i] == csv[..i];
  }

  lemma DecoderApply(rejects: DbRow -> bool, row: CsvRow)
    ensures Decoder(rejects)(row) == Decode(row, rejects)
  {
  }

  /** Once a row has raised, the rows after it change nothing. */
  lemma {:induction false} RunStaysFailed(rows0: map<int, DbRow>, csv: seq<CsvRow>, decode: CsvRow -> Option<Insertion>, n: int)
    requires 0 < n <= |csv| && RunAll(rows0, csv[..n], decode).failed
    ensures RunAll(rows0, csv, decode) == RunAll(rows0, csv[..n], decode)
  {
    if n < |csv| {
      var init := csv[..|csv| - 1];
      assert init[..n] == csv[..n];
      RunStaysFailed(rows0, init, decode, n);
    } else {
      assert csv[..n] == csv;
    }
  }

  /**
   * The run inserts the rows before the first failing one and stops there:
   * every row before `processed` goes through, a failed run stops at a row
   * that raises, and a run that does not fail reads every row.
   */
  lemma {:induction false} RunPrefix(rows0: map<int, DbRow>, csv: seq<CsvRow>, decode: CsvRow -> Option<Insertion>)
    ensures var r := RunAll(rows0, csv, decode);
      && r.processed <= |csv|
      && (forall j :: 0 <= j < r.processed ==> decode(csv[j]).Some?)
      && (r.failed ==> r.processed < |csv| && decode(csv[r.processed]).None?)
      && (!r.failed ==> r.processed == |csv|)
  {
    if csv != [] {
      var init := csv[..|csv| - 1];
      RunPrefix(rows0, init, decode);
      forall j | 0 <= j < |init| ensures csv[j] == init[j] {
      }
    }
  }

  /** Rows already in the table are never changed. */
  lemma {:induction false} RunKeepsExisting(rows0: map<int, DbRow>, csv: seq<CsvRow>, decode: CsvRow -> Option<Insertion>)
    ensures forall id :: id in rows0 ==> id in RunAll(rows0, csv, decode).rows && RunAll(rows0, csv, decode).rows[id] == rows0[id]
  {
    if csv != [] {
      var init := csv[..|csv| - 1];
      RunKeepsExisting(rows0, init, decode);
      var p := RunAll(rows0, init, decode);
      if !p.failed && decode(csv[|csv| - 1]).Some? {
        InsertOneEffect(p.rows, decode(csv[|csv| - 1]).value.id, decode(csv[|csv| - 1]).value.stored);
      }
    }
  }

  /** Every row of `csv` goes through the insert. */
  predicate AllLoadable(csv: seq<CsvRow>, decode: CsvRow -> Option<Insertion>)
  {
    forall k :: 0 <= k < |csv| ==> decode(csv[k]).Some?
  }

  /** Row `k` of `csv` goes through with key `id`. */
  predicate KeyAt(csv: seq<CsvRow>, decode: CsvRow -> Option<Insertion>, id: int, k: int)
    requires 0 <= k < |csv|
  {
    decode(csv[k]).Some? && decode(csv[k]).value.id == id
  }

  /** Some row of `csv` goes through with key `id`. */
  predicate KeyIn(csv: seq<CsvRow>, decode: CsvRow -> Option<Insertion>, id: int)
  {
    exists k :: 0 <= k < |csv| && KeyAt(csv, decode, id, k)
  }

  lemma KeyInSnoc(csv: seq<CsvRow>, decode: CsvRow -> Option<Insertion>, id: int)
    requires csv != []
    ensures KeyIn(csv, decode, id) <==>
      KeyIn(csv[..|csv| - 1], decode, id) || KeyAt(csv, decode, id, |csv| - 1)
  {
    var init := csv[..|csv| - 1];
    if KeyIn(csv, decode, id) && !KeyAt(csv, decode, id, |csv| - 1) {
      var k :| 0 <= k < |csv| && KeyAt(csv, decode, id, k);
      assert init[k] == csv[k];
      assert KeyAt(init, decode, id, k);
    }
    if KeyIn(init, decode, id) {
      var k :| 0 <= k < |init| && KeyAt(init, decode, id, k);
      assert csv[k] == init[k];
      assert KeyAt(csv, decode, id, k);
    }
  }

  /** When no row raises, the keys of the final table are the initial keys and the keys of all rows of the file. */
  lemma {:induction false} RunKeys(rows0: map<int, DbRow>, csv: seq<CsvRow>, decode: CsvRow -> Option<Insertion>, id: int)
    requires AllLoadable(csv, decode)
    ensures !RunAll(rows0, csv, decode).failed
    ensures id in RunAll(rows0, csv, decode).rows <==> id in rows0 || KeyIn(csv, decode, id)
  {
    if csv != [] {
      var init := csv[..|csv| - 1];
      assert AllLoadable(init, decode) by {
        forall k | 0 <= k < |init| ensures decode(init[k]).Some? {
          assert init[k] == csv[k];
        }
      }
      KeyInSnoc(csv, decode, id);
      RunKeys(rows0, init, decode, id);
      InsertOneEffect(RunAll(rows0, init, decode).rows, decode(csv[|csv| - 1]).value.id, decode(csv[|csv| - 1]).value.stored);
    }
  }

  /** When no row raises, a new key holds the row of its first occurrence in the file. */
  lemma {:induction false} RunFirstKept(rows0: map<int, DbRow>, csv: seq<CsvRow>, decode: CsvRow -> Option<Insertion>, id: int, k: int)
    requires AllLoadable(csv, decode)
    requires id !in rows0
    requires 0 <= k < |csv| && KeyAt(csv, decode, id, k)
    requires forall j :: 0 <= j < k ==> !KeyAt(csv, decode, id, j)
    ensures id in RunAll(rows0, csv, decode).rows
    ensures RunAll(rows0, csv, decode).rows[id] == decode(csv[k]).value.stored
  {
    var init := csv[..|csv| - 1];
    assert AllLoadable(init, decode) by {
      forall j | 0 <= j < |init| ensures decode(init[j]).Some? {
        assert init[j] == csv[j];
      }
    }
    RunKeys(rows0, init, decode, id);
    var p := RunAll(rows0, init, decode);
    InsertOneEffect(p.rows, decode(csv[|csv| - 1]).value.id, decode(csv[|csv| - 1]).value.stored);
    if k < |init| {
      assert init[k] == csv[k];
      assert KeyAt(init, decode, id, k);
      forall j | 0 <= j < k ensures !KeyAt(init, decode, id, j) {
        assert init[j] == csv[j];
        assert !KeyAt(csv, decode, id, j);
      }
      RunFirstKept(rows0, init, decode, id, k);
    } else {
      assert !KeyIn(init, decode, id) by {
        forall j | 0 <= j < |init| ensures !KeyAt(init, decode, id, j) {
          assert init[j] == csv[j];
          assert !KeyAt(csv, decode, id, j);
        }
      }
    }
  }
}
