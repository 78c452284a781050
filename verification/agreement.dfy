/**
 * What the two CSV loaders have in common: for a CSV row that carries every
 * column of `vehicles`, the plain loader stores the same 22-column row under
 * the same key as the checked loader.
 */
module LoaderAgreement {
  import opened Wrappers
  import opened VehicleStore
  import PostgresTst
  import PostgresLoad

  /** None of the columns the plain loader drops is a column of `vehicles`. */
  lemma ColumnsNotDropped()
    ensures forall k :: k in Columns ==> k !in PostgresLoad.Dropped
  {
  }

  /** The plain loader's cleaned row has every column exactly when the CSV row does. */
  lemma HasColumnsOfRow(row: CsvRow)
    ensures PostgresLoad.HasColumns(PostgresLoad.CleanDropping(row)) <==> forall k :: k in Columns ==> k in row
  {
    ColumnsNotDropped();
    PostgresLoad.CleanDroppingValues(row);
  }

  /**
   * For a CSV row with every column, the parameters of the plain loader's
   * insert are the checked loader's `cleaned_row`.
   */
  lemma SameStoredRow(row: CsvRow)
    requires forall k :: k in Columns ==> k in row
    ensures PostgresLoad.HasColumns(PostgresLoad.CleanDropping(row))
    ensures PostgresLoad.Params(PostgresLoad.CleanDropping(row)) == PostgresTst.CleanRequired(row)
  {
    var c := PostgresLoad.CleanDropping(row);
    HasColumnsOfRow(row);
    PostgresLoad.CleanDroppingValues(row);
    PostgresLoad.ParamsValues(c);
    PostgresTst.CleanOverValues(row, Columns);
    var p, q := PostgresLoad.Params(c), PostgresTst.CleanRequired(row);
    forall k | k in p ensures k in q && p[k] == q[k] {
    }
  }

  /**
   * The plain loader's insert for a CSV row goes through exactly when the row
   * has every column, its `id` gives a key and the database takes its
   * values; the row is then stored under the checked loader's key as the
   * checked loader's cleaned row.
   */
  lemma DecodeAsChecked(row: CsvRow, rejects: DbRow -> bool)
    ensures PostgresLoad.Decode(row, rejects).Some? <==>
      && (forall k :: k in Columns ==> k in row)
      && PostgresTst.RowId(row).Some?
      && !rejects(PostgresTst.CleanRequired(row))
    ensures PostgresLoad.Decode(row, rejects).Some? ==>
      && Some(PostgresLoad.Decode(row, rejects).value.id) == PostgresTst.RowId(row)
      && PostgresLoad.Decode(row, rejects).value.stored == PostgresTst.CleanRequired(row)
  {
    HasColumnsOfRow(row);
    if forall k :: k in Columns ==> k in row {
      SameStoredRow(row);
      var c := PostgresLoad.CleanDropping(row);
      PostgresLoad.ParamsId(c);
      PostgresTst.CleanedId(row);
    }
  }
}
