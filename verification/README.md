# Vehicles data scripts: chunked summarization, CSV loaders and anomaly scan

This project models the parts of the vehicles data scripts that have logic of
their own. It proves what those parts promise.

- **Text-to-SQL summarization** (`textsqlsummarization.py`).
  - `chunk_results_by_words` packs the result rows' texts, in order, into chunks within a word budget. It is modelled as a loop proved against a fold function.
  - The fold function is proved to be a greedy chunking:
    - nothing is dropped, repeated or reordered;
    - only the first chunk can be empty, and only when the first row alone is over budget;
    - a chunk over budget holds at most one row;
    - no chunk could have taken the next chunk's first row.
  - `summarize_results` makes one call per chunk and then one call on the joined summaries. It is modelled with the summarizer as a function parameter and the sequence of calls as an output.
  - The guard on the generated query is proved always to yield a query that starts with "select" and does not contain "Erhalten".
  - Word counting is Python's `str.split()` with no argument, modelled character by character in module `Words`.
- **Checked CSV loader** (`postgrestst.py`).
  - Each CSV row is projected onto the 22 columns of `vehicles`, with empty text as NULL.
  - The loop counts the row and looks its key up. It skips a row whose key is taken, without a progress report. Otherwise it inserts the row, or rolls it back when the database refuses it.
  - It reports progress every 50000 rows.
  - The loop is a method over a `VehiclesTable` object, proved against the fold `LoadAll`.
- **Plain CSV loader** (`postgres.py`).
  - Each CSV row loses four columns and maps empty text to NULL.
  - Each row is then inserted with `ON CONFLICT (id) DO NOTHING`.
  - The script has no error handling, so the first row that raises ends the run. The model stops there too.
  - Module `LoaderAgreement` proves that, for a CSV row with every column, this loader stores the same key and the same 22-column row as the checked loader.
- **Anomaly scan** (`anamolies.py`).
  - For each of `price`, `year` and `odometer` that is a column of the table, the scan takes the feature's non-NULL values.
  - It computes mean, median, standard deviation, minimum and maximum (module `Statistics`, over `real`).
  - It takes the detector's predictions and collects the rows predicted `-1`.
  - It appends one 10-field tuple per feature to a batch, which is inserted once into `data_meta`.

The 64-bit `BIGINT` reading of the `id` column is modelled explicitly in `VehicleStore.ParseBigint`. A key that is NULL, malformed or out of range makes the statement raise.

## Model

| member | source | states |
|---|---|---|
| Words.SplitTokens | textsqlsummarization.py:38 | every word `split()` returns is non-empty and free of whitespace, and the words together spell the text with its whitespace removed |
| Words.SplitBreak | textsqlsummarization.py:38 | splitting at any whitespace character gives the words before it followed by the words after it |
| Words.SplitWord | textsqlsummarization.py:38 | a whitespace-free non-empty text splits to exactly itself, so `split()` never breaks inside a word |
| Words.SplitBlank | textsqlsummarization.py:38 | text made only of whitespace has no words |
| Words.SplitSpaced | textsqlsummarization.py:37-38 | the words of two texts joined by a space are the words of the first followed by the words of the second |
| Words.SplitJoinWords | textsqlsummarization.py:37-38 | words joined by single spaces split back into exactly those words |
| Words.SplitJoinSpace | textsqlsummarization.py:37-38 | the words of space-joined texts are the words of each text, in order |
| TextSqlSummarization.ChunkResultsByWords | textsqlsummarization.py:31-51 | the loop returns the fold `ChunkTexts` over the row texts, and its output is a greedy chunking of the row texts |
| TextSqlSummarization.ChunkTextsGreedy | textsqlsummarization.py:31-51 | for every input and budget, the chunks concatenate to the row texts; no rows gives no chunks; only the first chunk may be empty, exactly when the first row alone is over budget; an over-budget chunk holds at most one row; each chunk plus the next chunk's first row is over budget |
| TextSqlSummarization.PackFirst | textsqlsummarization.py:36-46 | after the first row, the chunker's state is consistent, with an empty chunk already closed exactly when that row alone is over budget |
| TextSqlSummarization.PackFlush | textsqlsummarization.py:40-46 | closing the current chunk when the next row would overflow it keeps the chunker's state consistent |
| TextSqlSummarization.PackExtend | textsqlsummarization.py:45-46 | adding a row that fits keeps the chunker's state consistent |
| TextSqlSummarization.PackDone | textsqlsummarization.py:48-51 | appending the last, non-empty chunk turns a consistent state into a greedy chunking |
| TextSqlSummarization.CloseChunk | textsqlsummarization.py:40-49 | closing the current chunk yields chunks that concatenate to the texts so far and keep every greedy-chunking condition |
| TextSqlSummarization.PackAllPacked | textsqlsummarization.py:36-46 | after any non-empty sequence of rows, the fold's state is consistent |
| TextSqlSummarization.PackAllWords | textsqlsummarization.py:40-46 | `current_word_count` is always the word total of the current chunk |
| TextSqlSummarization.SummarizeResults | textsqlsummarization.py:60-69 | the summarizer is called on each chunk's space-joined text, in chunk order, then once on the space-joined summaries; the result is that last call's answer |
| TextSqlSummarization.PromptsWords | textsqlsummarization.py:64 | the words of the per-chunk texts are the words of the chunks' rows, in order |
| TextSqlSummarization.SummarizedWords | textsqlsummarization.py:61-65 | the texts sent for summary carry exactly the words of the result rows, in order |
| TextSqlSummarization.GuardQuery | textsqlsummarization.py:79-81 | the query executed always starts with "select" in any letter case and never contains "Erhalten"; an accepted query is kept unchanged, any other query is replaced by the fixed fallback |
| TextSqlSummarization.FallbackAccepted | textsqlsummarization.py:81 | the fallback query passes the guard's own test |
| TextSqlSummarization.FallbackNoErhalten | textsqlsummarization.py:81 | the fallback query does not contain "Erhalten" |
| TextSqlSummarization.FallbackSelect | textsqlsummarization.py:81 | the lower-cased fallback query starts with "select" |
| VehicleStore.ParseBigint | postgrestst.py:28 | a key read from text always lies in the `BIGINT` range |
| VehicleStore.ParseShown | postgrestst.py:28 | the decimal text of a number reads back as that number exactly when it fits in 64 bits, and is refused otherwise |
| VehicleStore.ParseShowInt | postgrestst.py:28 | every `BIGINT` written in decimal reads back as itself |
| VehicleStore.ParseOutOfRange | postgrestst.py:28 | decimal text outside the 64-bit range is refused |
| VehicleStore.ParseId | postgrestst.py:79 | a NULL or empty `id` never gives a key |
| VehicleStore.VehiclesTable.Exists | postgrestst.py:78-80 | the lookup finds a row exactly when the key is stored |
| VehicleStore.VehiclesTable.Insert | postgrestst.py:87-97 | a plain insert succeeds exactly when the key is new, and then adds exactly that entry; otherwise nothing changes |
| VehicleStore.VehiclesTable.InsertIfAbsent | postgres.py:56-67 | `ON CONFLICT (id) DO NOTHING`: the new table is `InsertOne` of the old one, which gains the row under a new key and is unchanged under a taken key |
| PostgresTst.CleanRequiredValues | postgrestst.py:67-74 | the cleaned row's keys are exactly the 22 required keys whatever the CSV holds; a non-NULL value is the CSV's non-empty text; a present non-empty value is kept |
| PostgresTst.CleanOverValues | postgrestst.py:74 | projecting onto a key list gives exactly those keys, each with its cleaned value |
| PostgresTst.CleanedId | postgrestst.py:74-79 | `cleaned_row['id']` exists and is the cleaned `id` column |
| PostgresTst.CleanIgnoresExtra | postgrestst.py:74 | two CSV rows that agree on the required keys clean to the same row |
| PostgresTst.CleanIdempotent | postgrestst.py:74 | cleaning a cleaned row changes nothing |
| PostgresTst.AfterRowEffect | postgrestst.py:76-102 | one row never changes a stored entry; the only entry it can add is its cleaned row under its own key; the table is unchanged unless the row is inserted |
| PostgresTst.AfterRowKeys | postgrestst.py:78-98 | after a row, a key is stored exactly when it was stored before or the row has that key and is accepted |
| PostgresTst.StoredRowKept | postgrestst.py:82-84 | a row whose key is taken leaves the stored row as it was |
| PostgresTst.AcceptedRowStored | postgrestst.py:97-98 | an accepted row with a new key is stored, cleaned, under that key |
| PostgresTst.LoadRows | postgrestst.py:60-106 | the loop leaves the table, `row_count` and the progress reports equal to the fold `LoadAll` over the CSV rows |
| PostgresTst.LoadCount | postgrestst.py:60-64 | `row_count` ends equal to the number of CSV rows read, skipped and failed rows included |
| PostgresTst.LoadKeepsExisting | postgrestst.py:78-84 | rows already in the table are never changed |
| PostgresTst.LoadKeys | postgrestst.py:76-102 | a key is in the final table exactly when it was there before or some CSV row with that key was accepted |
| PostgresTst.LoadFirstKept | postgrestst.py:78-97 | under a new key, the first accepted row's cleaned values are the ones kept |
| PostgresTst.LoadReportsOrdered | postgrestst.py:105-106 | the progress counts lie between 1 and the number of rows and strictly increase |
| PostgresTst.LoadReports | postgrestst.py:82-106 | progress is reported after row `c` exactly when `c` is a multiple of 50000 and that row was not skipped as a duplicate |
| PostgresLoad.CleanDroppingValues | postgres.py:53 | the cleaned row keeps every CSV column except the four dropped ones; a value is NULL exactly when the CSV value is NULL or empty, and otherwise is the CSV value |
| PostgresLoad.CleanDroppingIdempotent | postgres.py:53 | cleaning a cleaned row changes nothing |
| VehicleStore.InsertOneEffect | postgres.py:57-67 | a taken key leaves the table unchanged; a new key adds exactly that entry and keeps every other |
| LoaderAgreement.HasColumnsOfRow | postgres.py:53-64 | the cleaned row has every insert column exactly when the CSV row has every column of `vehicles`, since none of the four dropped columns is one of them |
| LoaderAgreement.SameStoredRow | postgres.py:53-67 | for a CSV row with every column, the insert's parameters are exactly the 22-column row that `postgrestst.py` builds as `cleaned_row` |
| LoaderAgreement.DecodeAsChecked | postgres.py:53-67 | a row's insert goes through exactly when the CSV row has every column, its `id` gives a `BIGINT` key and the database takes its values; it is then stored under the key and as the cleaned row that `postgrestst.py` uses |
| PostgresLoad.LoadRows | postgres.py:49-68 | the loop leaves the table, the number of rows handled and whether a row raised equal to the fold `RunAll` |
| PostgresLoad.RunPrefix | postgres.py:51-67 | every row before the stopping point goes through; a failed run stops at a row that raises; a run that does not fail reads every row |
| PostgresLoad.RunStaysFailed | postgres.py:51-67 | once a row raises, later rows change nothing |
| PostgresLoad.RunKeepsExisting | postgres.py:65 | rows already in the table are never changed |
| PostgresLoad.RunKeys | postgres.py:50-68 | when every row goes through, the final keys are the initial keys together with the keys of the file |
| PostgresLoad.RunFirstKept | postgres.py:50-68 | when every row goes through, a new key holds the row of its first occurrence in the file |
| Statistics.Min | anamolies.py:55 | the minimum is one of the values and at most every value |
| Statistics.Max | anamolies.py:56 | the maximum is one of the values and at least every value |
| Statistics.SumBounds | anamolies.py:52 | values within bounds sum to between n times each bound |
| Statistics.MeanBounds | anamolies.py:52-56 | the mean lies between the minimum and the maximum |
| Statistics.SortProps | anamolies.py:53 | the sort that defines the median is ordered and a permutation of the values |
| Statistics.MedianMiddle | anamolies.py:53 | the median lies between the two middle elements of the sorted values |
| Statistics.MedianBounds | anamolies.py:53-56 | the median lies between the minimum and the maximum |
| Statistics.MedianSplits | anamolies.py:53 | at least half of the sorted values are at most the median, and at least half are at least the median |
| Statistics.VarianceNonNegative | anamolies.py:54 | the population variance under the standard deviation is never negative |
| Statistics.ConstantColumn | anamolies.py:52-56 | a feature with a single repeated value has that value as mean, median, minimum and maximum, and variance zero |
| AnomalyScan.NonNullRowsProps | anamolies.py:48-49 | the rows kept are exactly the rows with a value for the feature, each kept as many times as it occurs in the table |
| AnomalyScan.NonNullCounts | anamolies.py:48-49 | each row with a value for the feature occurs in the kept rows as often as in the table, and no other row occurs |
| AnomalyScan.CountAtMost | anamolies.py:62 | there are no more anomalies than predictions |
| AnomalyScan.AnomalyCountIsLength | anamolies.py:62-65 | `anomaly_count` equals the length of the anomaly list |
| AnomalyScan.AnomaliesAreMarked | anamolies.py:65 | an anomaly record is present exactly when some row predicted `-1` has that id and value |
| AnomalyScan.FeatureMetaProps | anamolies.py:48-62 | the statistics are taken over the non-NULL values: minimum and maximum are values of the feature, bounding the median and the mean; the standard deviation is the root of a non-negative variance; `anomaly_count` is the list's length and at most the number of values |
| AnomalyScan.FeatureAnomalies | anamolies.py:49-65 | one prediction per non-NULL row; each anomaly is the id and value of a table row predicted `-1`, and each such row has its anomaly |
| AnomalyScan.PresentProps | anamolies.py:40-47 | the features analysed are exactly the listed features that are columns of the table |
| AnomalyScan.MetaRowsShape | anamolies.py:40-79 | tuple `i` of the batch is the feature tuple of the `i`-th listed feature that is a column of the table; every tuple names `vehicles` and the one analysis date |
| AnomalyScan.BatchConsistent | anamolies.py:46-86 | every tuple of the batch written to `data_meta` names `vehicles`, the analysis date and a listed feature, has min ≤ median ≤ max and min ≤ mean ≤ max, and has a count equal to its list's length |
| AnomalyScan.CollectMetaData | anamolies.py:46-79 | the feature loop builds exactly the batch `MetaRows` over `price`, `year`, `odometer` |
| AnomalyScan.DataMetaTable.InsertMany | anamolies.py:82-86 | the batch is appended to `data_meta` in order |
| AnomalyScan.Scan | anamolies.py:37-87 | the scan appends exactly the feature batch to `data_meta`, in one insert |

## Left out

- The T5 model calls (`generate_sql`, `summarize_text`) are not modelled. The generated query is an input of the guard, and `summarize_text` is a function parameter of `SummarizeResults`.
- `execute_sql` and the database behind it are not modelled. The result rows are an input whose fields are already converted to text by `str`, so `str` of non-text values is not modelled.
- `GuardQuery`: `str.lower` is modelled on ASCII letters only. The test against "select" does not change: the only non-ASCII characters Python lower-cases to ASCII letters are the Kelvin sign (to "k") and the dotted capital I (to "i" plus a combining dot), and neither letter occurs in "select".
- `ParseBigint`: PostgreSQL also accepts surrounding whitespace, underscores between digits and `0x`/`0o`/`0b` forms in `BIGINT` text. Only an optional sign followed by decimal digits is modelled.
- The conversion of the other columns to `BIGINT`, `INTEGER` or `FLOAT` is not modelled. It is the `rejects` parameter, which says which cleaned rows the database refuses.
- Connections, commits, cursors, the `CREATE TABLE` statements and the printed messages are not modelled. In `postgrestst.py` the progress messages are the `reports` sequence of counts, and the final message is `row_count`.
- `csv.DictReader` is not modelled. A row is a map from header name to text, or to None for a missing trailing field. Extra fields under the `restkey` are not modelled.
- The isolation forest (`anamolies.py` lines 59-61) is not modelled. Its predictions are the function parameter `detect`, which returns one prediction per value.
- The square root in `np.std` is the parameter `sqrt`, applied to the population variance.
- Floating-point arithmetic is modelled over `real`.
- The `json.dumps` text of the anomaly list is not modelled. The tuple holds the list of (id, value) records.
- Reading `vehicles` into a data frame is not modelled. A row is its integer `id` and its non-NULL numeric cells, so a NULL `id` is not modelled. With a NULL `id` in a non-NULL feature row, `data` and `data_df` would differ in length.
- `datetime.now()` is not modelled. The analysis date is a parameter.
- A present feature with only NULL values is excluded by precondition (`HasData`). `np.min` raises on it.
- The final data-frame print of `anamolies.py` is not modelled.
- `stocks.py`, `csvtojson.py`, `sqllite.py`, `mongodbvehicles.py`, `loadcompanies.py` and `postgresextract.py` are not part of this model. They are I/O plumbing, library calls and plotting.
