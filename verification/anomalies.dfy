/**
 * The anomaly scan of the `vehicles` table: for each numeric feature that is
 * a column of the table it summarises the non-NULL values, asks the detector
 * which of them are anomalies, and adds one 10-field row to a batch that is
 * inserted into `data_meta` at the end.
 */
module AnomalyScan {
  import opened Statistics

  /** A row of `vehicles` as the scan reads it: its `id` and its numeric cells that are not NULL. */
  datatype Record = Record(id: int, cells: map<string, real>)

  /** The table read into a data frame: its column names and its rows in order. */
  datatype Frame = Frame(columns: set<string>, rows: seq<Record>)

  /** The features analysed, in order. */
  const Features: seq<string> := ["price", "year", "odometer"]

  /** The `table_name` recorded with every result. */
  const TableName: string := "vehicles"

  /** `vehicles_df[[feature, 'id']].dropna()`: the rows with a value for `feature`, in table order. */
  function NonNullRows(rows: seq<Record>, feature: string): seq<Record>
  {
    if rows == [] then []
    else
      var last := rows[|rows| - 1];
      NonNullRows(rows[..|rows| - 1], feature) + (if feature in last.cells then [last] else [])
  }

  /** The kept rows are exactly the rows with a value for the feature, in their order. */
  lemma NonNullRowsProps(rows: seq<Record>, feature: string)
    ensures var r := NonNullRows(rows, feature);
      && |r| <= |rows|
      && (forall i :: 0 <= i < |r| ==> feature in r[i].cells && r[i] in rows)
      && (forall k :: 0 <= k < |rows| && feature in rows[k].cells ==> rows[k] in r)
      && (forall x :: multiset(r)[x] == if feature in x.cells then multiset(rows)[x] else 0)
  {
    NonNullKept(rows, feature);
    NonNullComplete(rows, feature);
    NonNullCounts(rows, feature);
  }

  /** Each row with a value for the feature is kept as often as it occurs; no other row is kept. */
  lemma {:induction false} NonNullCounts(rows: seq<Record>, feature: string)
    ensures forall x :: multiset(NonNullRows(rows, feature))[x] == if feature in x.cells then multiset(rows)[x] else 0
  {
    if rows != [] {
      var init, last := rows[..|rows| - 1], rows[|rows| - 1];
      NonNullCounts(init, feature);
      assert rows == init + [last];
      assert multiset(rows) == multiset(init) + multiset{last};
      var tail := if feature in last.cells then [last] else [];
      assert NonNullRows(rows, feature) == NonNullRows(init, feature) + tail;
      assert multiset(NonNullRows(rows, feature)) == multiset(NonNullRows(init, feature)) + multiset(tail);
    }
  }

  lemma {:induction false} NonNullKept(rows: seq<Record>, feature: string)
    ensures var r := NonNullRows(rows, feature);
      && |r| <= |rows|
      && (forall i :: 0 <= i < |r| ==> feature in r[i].cells && r[i] in rows)
  {
    if rows != [] {
      var init := rows[..|rows| - 1];
      NonNullKept(init, feature);
      var r := NonNullRows(rows, feature);
      var ri := NonNullRows(init, feature);
      assert r == ri + (if feature in rows[|rows| - 1].cells then [rows[|rows| - 1]] else []);
      forall i | 0 <= i < |r| ensures feature in r[i].cells && r[i] in rows {
        if i < |ri| {
          assert r[i] == ri[i] && ri[i] in init;
        }
      }
    }
  }

  lemma {:induction false} NonNullComplete(rows: seq<Record>, feature: string)
    ensures forall k :: 0 <= k < |rows| && feature in rows[k].cells ==> rows[k] in NonNullRows(rows, feature)
  {
    if rows != [] {
      var init := rows[..|rows| - 1];
      NonNullComplete(init, feature);
      var r := NonNullRows(rows, feature);
      var ri := NonNullRows(init, feature);
      assert r == ri + (if feature in rows[|rows| - 1].cells then [rows[|rows| - 1]] else []);
      forall k | 0 <= k < |rows| && feature in rows[k].cells ensures rows[k] in r {
        if k < |init| {
          assert init[k] == rows[k];
        }
      }
    }
  }

  /** The feature's value in each row that has one. */
  function Values(rows: seq<Record>, feature: string): (r: seq<real>)
    requires forall i :: 0 <= i < |rows| ==> feature in rows[i].cells
    ensures |r| == |rows|
  {
    seq(|rows|, i requires 0 <= i < |rows| => rows[i].cells[feature])
  }

  /** `vehicles_df[feature].dropna()`: the non-NULL values of the feature, in table order. */
  function Column(frame: Frame, feature: string): seq<real>
  {
    NonNullRowsProps(frame.rows, feature);
    Values(NonNullRows(frame.rows, feature), feature)
  }

  /** A detected anomaly: the row's `id` and its value of the feature. */
  datatype Anomaly = Anomaly(id: int, value: real)

  /** `np.sum(predictions == -1)`. */
  function CountAnomalies(predictions: seq<int>): nat
  {
    if predictions == [] then 0
    else CountAnomalies(predictions[..|predictions| - 1]) + (if predictions[|predictions| - 1] == -1 then 1 else 0)
  }

  /** `data_df.loc[predictions == -1, ['id', feature]]`: the rows the detector marks, as records, in order. */
  function SelectAnomalies(rows: seq<Record>, feature: string, predictions: seq<int>): seq<Anomaly>
    requires |predictions| == |rows|
    requires forall i :: 0 <= i < |rows| ==> feature in rows[i].cells
  {
    if rows == [] then []
    else
      var n := |rows| - 1;
      SelectAnomalies(rows[..n], feature, predictions[..n])
        + (if predictions[n] == -1 then [Anomaly(rows[n].id, rows[n].cells[feature])] else [])
  }

  /** `anomaly_count` is the length of the anomaly list. */
  lemma {:induction false} AnomalyCountIsLength(rows: seq<Record>, feature: string, predictions: seq<int>)
    requires |predictions| == |rows|
    requires forall i :: 0 <= i < |rows| ==> feature in rows[i].cells
    ensures |SelectAnomalies(rows, feature, predictions)| == CountAnomalies(predictions)
  {
    if rows != [] {
      var n := |rows| - 1;
      AnomalyCountIsLength(rows[..n], feature, predictions[..n]);
    }
  }

  /** The row at position `i` is marked by the detector, with the given id and value. */
  predicate MarkedAt(rows: seq<Record>, feature: string, predictions: seq<int>, i: int, a: Anomaly)
    requires |predictions| == |rows|
    requires forall i :: 0 <= i < |rows| ==> feature in rows[i].cells
  {
    0 <= i < |rows| && predictions[i] == -1 && a == Anomaly(rows[i].id, rows[i].cells[feature])
  }

  /** Every anomaly record pairs the id and value of a row the detector marks, and every marked row has its record. */
  lemma {:induction false} AnomaliesAreMarked(rows: seq<Record>, feature: string, predictions: seq<int>)
    requires |predictions| == |rows|
    requires forall i :: 0 <= i < |rows| ==> feature in rows[i].cells
    ensures forall a :: a in SelectAnomalies(rows, feature, predictions) <==>
      exists i :: MarkedAt(rows, feature, predictions, i, a)
  {
    if rows != [] {
      var n := |rows| - 1;
      var rs, ps := rows[..n], predictions[..n];
      AnomaliesAreMarked(rs, feature, ps);
      var tail := if predictions[n] == -1 then [Anomaly(rows[n].id, rows[n].cells[feature])] else [];
      assert SelectAnomalies(rows, feature, predictions) == SelectAnomalies(rs, feature, ps) + tail;
      forall a ensures a in SelectAnomalies(rows, feature, predictions) <==> exists i :: MarkedAt(rows, feature, predictions, i, a) {
        if a in SelectAnomalies(rs, feature, ps) {
          var i :| MarkedAt(rs, feature, ps, i, a);
          assert MarkedAt(rows, feature, predictions, i, a);
        } else if a in tail {
          assert MarkedAt(rows, feature, predictions, n, a);
        }
        if exists i :: MarkedAt(rows, feature, predictions, i, a) {
          var i :| MarkedAt(rows, feature, predictions, i, a);
          if i < n {
            assert MarkedAt(rs, feature, ps, i, a);
          } else {
            assert a in tail;
          }
        }
      }
    }
  }

  /** One row of `data_meta`, in the column order of its insert statement. */
  datatype MetaTuple = MetaTuple(
    tableName: string,
    analysisDate: string,
    featureName: string,
    mean: real,
    median: real,
    stdDev: real,
    minValue: real,
    maxValue: real,
    anomalyCount: nat,
    anomalies: seq<Anomaly>)

  /** The detector returns one prediction per value. */
  ghost predicate KeepsLength(detect: seq<real> -> seq<int>)
  {
    forall data :: |detect(data)| == |data|
  }

  /**
   * The results for one feature present in the table. `detect` stands for
   * the isolation forest's predictions on the values and `sqrt` for the
   * square root that turns the variance into `np.std`.
   */
  function FeatureMeta(frame: Frame, feature: string, analysisDate: string,
                       detect: seq<real> -> seq<int>, sqrt: real -> real): MetaTuple
    requires |Column(frame, feature)| > 0
    requires KeepsLength(detect)
  {
    var data := Column(frame, feature);
    var dataRows := NonNullRows(frame.rows, feature);
    NonNullRowsProps(frame.rows, feature);
    var predictions := detect(data);
    MetaTuple(TableName, analysisDate, feature, Mean(data), Median(data), sqrt(Variance(data)),
      Min(data), Max(data), CountAnomalies(predictions), SelectAnomalies(dataRows, feature, predictions))
  }

  /** Every feature of `features` that is a column of the table has at least one non-NULL value. */
  predicate HasData(frame: Frame, features: seq<string>)
  {
    forall f :: f in features && f in frame.columns ==> |Column(frame, f)| > 0
  }

  /** The batch after the features `features`: one tuple per feature that is a column of the table, in order. */
  function MetaRows(frame: Frame, features: seq<string>, analysisDate: string,
                    detect: seq<real> -> seq<int>, sqrt: real -> real): seq<MetaTuple>
    requires HasData(frame, features)
    requires KeepsLength(detect)
  {
    if features == [] then []
    else
      var f := features[|features| - 1];
      MetaRows(frame, features[..|features| - 1], analysisDate, detect, sqrt)
        + (if f in frame.columns then [FeatureMeta(frame, f, analysisDate, detect, sqrt)] else [])
  }

  /** The loop over the features, building the batch. */
  method CollectMetaData(frame: Frame, analysisDate: string, detect: seq<real> -> seq<int>, sqrt: real -> real)
    returns (metaData: seq<MetaTuple>)
    requires HasData(frame, Features)
    requires KeepsLength(detect)
    ensures metaData == MetaRows(frame, Features, analysisDate, detect, sqrt)
  {
    metaData := [];
    for i := 0 to |Features|
      invariant metaData == MetaRows(frame, Features[..i], analysisDate, detect, sqrt)
    {
      assert Features[..i + 1][..i] == Features[..i];
      var feature := Features[i];
      if feature in frame.columns {
        var data := Column(frame, feature);
        var dataRows := NonNullRows(frame.rows, feature);
        NonNullRowsProps(frame.rows, feature);
        var mean := Mean(data);
        var median := Median(data);
        var stdDev := sqrt(Variance(data));
        var minValue := Min(data);
        var maxValue := Max(data);
        var predictions := detect(data);
        var anomalyCount := CountAnomalies(predictions);
        var anomalies := SelectAnomalies(dataRows, feature, predictions);
        metaData := metaData + [MetaTuple(TableName, analysisDate, feature, mean, median, stdDev,
          minValue, maxValue, anomalyCount, anomalies)];
      }
    }
    assert Features[..|Features|] == Features;
  }

  /** The features of `features` that are columns of the table, in order. */
  function Present(features: seq<string>, columns: set<string>): seq<string>
  {
    if features == [] then []
    else
      var f := features[|features| - 1];
      Present(features[..|features| - 1], columns) + (if f in columns then [f] else [])
  }

  /** The features kept are exactly the listed features that are columns of the table. */
  lemma {:induction false} PresentProps(features: seq<string>, columns: set<string>)
    ensures var p := Present(features, columns);
      && (forall i :: 0 <= i < |p| ==> p[i] in features && p[i] in columns)
      && (forall f :: f in features && f in columns ==> f in p)
  {
    if features != [] {
      var init := features[..|features| - 1];
      PresentProps(init, columns);
      var p := Present(features, columns);
      var pi := Present(init, columns);
      forall i | 0 <= i < |p| ensures p[i] in features && p[i] in columns {
        if i < |pi| {
          assert p[i] == pi[i];
          var k :| 0 <= k < |init| && init[k] == pi[i];
          assert features[k] == init[k];
        }
      }
      forall f | f in features && f in columns ensures f in p {
        var k :| 0 <= k < |features| && features[k] == f;
        if k < |init| {
          assert init[k] == f;
          var i :| 0 <= i < |pi| && pi[i] == f;
          assert p[i] == pi[i];
        } else {
          assert p[|p| - 1] == f;
        }
      }
    }
  }

  /**
   * The batch holds, in feature order, the tuple `FeatureMeta` for each
   * listed feature that is a column of the table, and every tuple names the
   * table and the one analysis date.
   */
  lemma {:induction false} MetaRowsShape(frame: Frame, features: seq<string>, analysisDate: string,
                                         detect: seq<real> -> seq<int>, sqrt: real -> real)
    requires HasData(frame, features)
    requires KeepsLength(detect)
    ensures var p := Present(features, frame.columns);
      forall i :: 0 <= i < |p| ==> p[i] in features && p[i] in frame.columns
    ensures var rows := MetaRows(frame, features, analysisDate, detect, sqrt);
      var p := Present(features, frame.columns);
      && |rows| == |p|
      && (forall i :: 0 <= i < |rows| ==>
            && rows[i] == FeatureMeta(frame, p[i], analysisDate, detect, sqrt)
            && rows[i].featureName == p[i]
            && rows[i].tableName == "vehicles"
            && rows[i].analysisDate == analysisDate)
  {
    PresentProps(features, frame.columns);
    if features != [] {
      var init := features[..|features| - 1];
      assert HasData(frame, init) by {
        forall f | f in init && f in frame.columns ensures |Column(frame, f)| > 0 {
          var k :| 0 <= k < |init| && init[k] == f;
          assert features[k] == f;
        }
      }
      MetaRowsShape(frame, init, analysisDate, detect, sqrt);
    }
  }

  /**
   * What each feature's tuple says about its values: the statistics are taken
   * over the non-NULL values, the minimum and maximum bound the mean and the
   * median, `anomaly_count` is the length of the anomaly list, and the list
   * holds exactly the id and value of each row the detector marks.
   */
  lemma FeatureMetaProps(frame: Frame, feature: string, analysisDate: string,
                         detect: seq<real> -> seq<int>, sqrt: real -> real)
    requires |Column(frame, feature)| > 0
    requires KeepsLength(detect)
    ensures var t := FeatureMeta(frame, feature, analysisDate, detect, sqrt);
      var data := Column(frame, feature);
      && t.minValue in data && t.maxValue in data
      && t.minValue <= t.median <= t.maxValue
      && t.minValue <= t.mean <= t.maxValue
      && t.stdDev == sqrt(Variance(data)) && Variance(data) >= 0.0
      && t.anomalyCount == |t.anomalies| <= |data|
  {
    var data := Column(frame, feature);
    var dataRows := NonNullRows(frame.rows, feature);
    NonNullRowsProps(frame.rows, feature);
    MeanBounds(data);
    MedianBounds(data);
    VarianceNonNegative(data);
    AnomalyCountIsLength(dataRows, feature, detect(data));
    CountAtMost(detect(data));
  }

  /** Every anomaly record is a row with a value for the feature that the detector marks, and each such row is recorded. */
  lemma FeatureAnomalies(frame: Frame, feature: string, analysisDate: string,
                         detect: seq<real> -> seq<int>, sqrt: real -> real)
    requires |Column(frame, feature)| > 0
    requires KeepsLength(detect)
    ensures var rows := NonNullRows(frame.rows, feature);
      && |detect(Column(frame, feature))| == |rows|
      && (forall i :: 0 <= i < |rows| ==> feature in rows[i].cells && rows[i] in frame.rows)
      && (forall a :: a in FeatureMeta(frame, feature, analysisDate, detect, sqrt).anomalies <==>
            exists i :: MarkedAt(rows, feature, detect(Column(frame, feature)), i, a))
  {
    var data := Column(frame, feature);
    var dataRows := NonNullRows(frame.rows, feature);
    NonNullRowsProps(frame.rows, feature);
    AnomaliesAreMarked(dataRows, feature, detect(data));
  }

  lemma {:induction false} CountAtMost(predictions: seq<int>)
    ensures CountAnomalies(predictions) <= |predictions|
  {
    if predictions != [] {
      CountAtMost(predictions[..|predictions| - 1]);
    }
  }

  /** Every tuple of the batch written to `data_meta` has its statistics in order and its count matching its list. */
  lemma BatchConsistent(frame: Frame, analysisDate: string, detect: seq<real> -> seq<int>, sqrt: real -> real)
    requires HasData(frame, Features)
    requires KeepsLength(detect)
    ensures forall t :: t in MetaRows(frame, Features, analysisDate, detect, sqrt) ==>
      && t.tableName == "vehicles" && t.analysisDate == analysisDate && t.featureName in Features
      && t.minValue <= t.median <= t.maxValue
      && t.minValue <= t.mean <= t.maxValue
      && t.anomalyCount == |t.anomalies|
  {
    var rows := MetaRows(frame, Features, analysisDate, detect, sqrt);
    var p := Present(Features, frame.columns);
    MetaRowsShape(frame, Features, analysisDate, detect, sqrt);
    forall t | t in rows
      ensures && t.tableName == "vehicles" && t.analysisDate == analysisDate && t.featureName in Features
              && t.minValue <= t.median <= t.maxValue
              && t.minValue <= t.mean <= t.maxValue
              && t.anomalyCount == |t.anomalies|
    {
      var i :| 0 <= i < |rows| && rows[i] == t;
      FeatureMetaProps(frame, p[i], analysisDate, detect, sqrt);
    }
  }

  /** The `data_meta` table. */
  class DataMetaTable {
    var rows: seq<MetaTuple>

    constructor(initial: seq<MetaTuple>)
      ensures rows == initial
    {
      rows := initial;
    }

    /** `executemany` of the insert statement: the batch is appended in order. */
    method InsertMany(batch: seq<MetaTuple>)
      modifies this
      ensures rows == old(rows) + batch
    {
      rows := rows + batch;
    }
  }

  /** The scan: collect the batch over all features, then insert it once. */
  method Scan(store: DataMetaTable, frame: Frame, analysisDate: string,
              detect: seq<real> -> seq<int>, sqrt: real -> real)
    requires HasData(frame, Features)
    requires KeepsLength(detect)
    modifies store
    ensures store.rows == old(store.rows) + MetaRows(frame, Features, analysisDate, detect, sqrt)
  {
    var metaData := CollectMetaData(frame, analysisDate, detect, sqrt);
    store.InsertMany(metaData);
  }
}
