# Steam time-series ingestion, modelled in Dafny

This project models the core of an ingestion pipeline that collects two
public Steam statistics feeds, content-server **bandwidth** usage per region
and **support**-request counts per category, and appends each newly fetched
batch to a persisted history of that feed. The model covers four parts:

- **Freshest-candidate fold.** The bandwidth endpoint is tried with several
  cache-buster strings. Each response is parsed, and the batch whose last
  timestamp is strictly greatest is kept (`Probe`).
- **Batch assembly.** The JSONP payload is sliced between the first `(` and
  the first `)` (`Text`). Each `{label, data}` series becomes a one-column
  table. The tables are outer-joined on the timestamp and sorted
  (`Assembly`). A support label becomes its category by
  `label.replace("requests", "").strip()` (`Text`).
- **Guarded append.** A new batch is appended to a history only when it is
  fresher. For support, its last point must also fall in the 07:00 UTC hour
  (`.hour == 7`, so 07:00:00.000 to 07:59:59.999). It must not start more
  than 10 whole minutes (bandwidth) or 1 whole day (support) after the
  history ends. Only the rows after the history's end are appended
  (`MergeEngine`).
- **The two drivers.**
  - `Pipeline` models `IngestionPipeline.run` and `__merge_with_old`. The
    bandwidth history is written before the support checks run.
  - `IngestData` models the standalone `ingest_data.py` script. It handles a
    first write, and its gap check always runs.

Representation:

- Timestamps are integer milliseconds since the epoch (`Time`). A table is a
  sequence of rows, each a timestamp and a map from category to integer
  value (`Tables`). A category absent from a row's map is a missing (NaN)
  cell.
- The maximum or minimum timestamp of an empty table is pandas' NaT. Every
  comparison with NaT is false, and the model keeps that behaviour:
  - an empty batch or an empty history is never "fresher" in `Pipeline`;
  - the gap check of `IngestData` fails on an empty table;
  - an empty first candidate is kept by the fold (`Probe.EmptySeedIsKept`).
- Python's `// 60` on `total_seconds()` and `timedelta.days` are floor
  divisions. Dafny's `/` with a positive divisor is too. The contracts state
  the resulting rule in closed form:
  - a bandwidth batch is refused exactly when it starts at least 11 minutes
    after the history ends;
  - a support batch is refused exactly when it starts at least 2 days after.
- `Assembly.SeriesTable` builds each one-column table already sorted by
  timestamp. The pandas frame of a single series keeps the feed's order; only
  the final `sort_values` after the join makes the two agree, so the model
  states the sorted batch that the source returns.

Modules, in dependency order:

| module | file | what it holds |
|---|---|---|
| `Wrappers` | wrappers.dfy | `Option`, `Result` |
| `Time` | time.dfy | millisecond constants, hour of day, whole minutes and days |
| `Tables` | tables.dfy | rows, tables, `MaxTs`/`MinTs`, `KeepAfter` (the `ts > bound` filter) |
| `Text` | text.dfy | `str.find`, Python slicing, the JSONP slice, `replace`/`split`/`join`, `strip` |
| `Assembly` | assembly.dfy | series, the one-column tables, the outer join, `Assemble` |
| `Probe` | probe.dfy | parsing candidates and the freshest-candidate fold |
| `MergeEngine` | merge.dfy | the append and the two guarded merge steps |
| `Pipeline` | pipeline.dfy | `__merge_with_old` and `run` |
| `IngestData` | ingest_data.dfy | `merge_with_old` and the script's entry point |

## Model

| member | source | states |
|---|---|---|
| `Time.HourOfDayDecomposes` | src/ingestion/ingestion_pipeline.py:154 | `Timestamp.hour` is the hour within the day: every instant is some whole day, plus that many hours, plus less than an hour |
| `Time.HourOfDayAt` | src/ingestion/ingestion_pipeline.py:152-155 | conversely, an instant `h` hours and less than an hour into any day (also before 1970) has hour `h` |
| `Time.WholeMinutes` | src/ingestion/ingestion_pipeline.py:131-133 | `total_seconds() // 60` is the largest whole number of minutes not exceeding the span, negative spans included |
| `Time.WholeDays` | src/ingestion/ingestion_pipeline.py:158 | `timedelta.days` is the largest whole number of days not exceeding the span |
| `Tables.MaxTs` | src/ingestion/ingestion_pipeline.py:124 | `.max()` of a non-empty table is one of its timestamps and no row is later |
| `Tables.MinTs` | src/ingestion/ingestion_pipeline.py:125 | `.min()` of a non-empty table is one of its timestamps and no row is earlier |
| `Tables.ExtremesOfIncreasing` | src/ingestion/ingestion_pipeline.py:73-74 | on a sorted table the minimum is the first row and the maximum the last |
| `Tables.MaxOfConcat` | src/ingestion/ingestion_pipeline.py:139-141 | the latest timestamp of a concatenation is the later of the two ends |
| `Tables.KeepAfter` | src/ingestion/ingestion_pipeline.py:136-138 | `loc[ts > bound]` keeps exactly the rows later than the bound, never more rows than given; all of them when all are later, none when none is |
| `Tables.KeepAfterSuffix` | src/ingest_data.py:77 | on a sorted table the kept rows are a suffix of it, so they stay in their original order |
| `Text.Find` | src/ingest_data.py:37-38 | `find` gives -1 exactly when the character is absent, else the index of its first occurrence |
| `Text.PySlice` | src/ingest_data.py:39 | a Python slice with any bounds is a contiguous piece of the text |
| `Text.JsonpDocument` | src/ingestion/ingestion_pipeline.py:55-57 | whatever the payload, the extracted document is a contiguous piece of it with no `)` |
| `Text.DocumentBetweenParens` | src/ingest_data.py:37-39 | with a `(` before the first `)`, the document is exactly the characters strictly between them |
| `Text.DocumentWithoutClose` | src/ingest_data.py:38-39 | with no `)`, the stop bound is -1: the document runs from after the first `(` (or the start) up to but excluding the last character |
| `Text.DocumentWithoutOpen` | src/ingest_data.py:37-39 | with no `(`, the document is everything before the first `)` |
| `Text.DocumentCloseFirst` | src/ingestion/ingestion_pipeline.py:55-57 | a `)` before the first `(` gives the empty document |
| `Text.SplitJoin` | src/ingestion/ingestion_pipeline.py:101 | splitting a label at "requests" and joining the pieces with "requests" gives the label back |
| `Text.SplitPiecesFree` | src/ingestion/ingestion_pipeline.py:101 | no piece of the split contains "requests" |
| `Text.RemoveAllIsSplitConcat` | src/ingestion/ingestion_pipeline.py:101 | `replace("requests", "")` keeps exactly the text between the occurrences: the concatenation of the split's pieces |
| `Text.RemoveAllAbsent` | src/ingestion/ingestion_pipeline.py:101 | a label without the separator is left unchanged by the replacement |
| `Text.Strip` | src/ingestion/ingestion_pipeline.py:101 | `strip()` gives a middle piece of the text, with only whitespace (Python's `isspace` set) cut off either side, and neither starting nor ending with whitespace |
| `Text.StripEmpty` | src/ingestion/ingestion_pipeline.py:101 | stripping leaves nothing exactly when the text is all whitespace |
| `Text.SupportCategoryCharacterised` | src/ingestion/ingestion_pipeline.py:101 | the category is the strip of the concatenated pieces of the label split at "requests"; the pieces hold no "requests" and rejoin to the label |
| `Assembly.OuterJoin` | src/ingestion/ingestion_pipeline.py:70-72 | the outer merge of two sorted tables is sorted and has exactly the timestamps of either side |
| `Assembly.OuterJoinCells` | src/ingestion/ingestion_pipeline.py:70-72 | at every timestamp the merged row holds the cells of both sides; a side without that timestamp adds none |
| `Assembly.SeriesTable` | src/ingestion/ingestion_pipeline.py:61-68 | a series' one-column table is sorted and has exactly the series' timestamps (pandas keeps the feed's order here; the final `sort_values` of line 73 makes the joined results agree) |
| `Assembly.SeriesTablePoint` | src/ingestion/ingestion_pipeline.py:64-67 | each point of a series is the only cell of its row in that table, holding the point's value |
| `Assembly.SeriesTableCell` | src/ingestion/ingestion_pipeline.py:64-67 | a one-column table has cells only for its own category, and every such cell is a point of the series |
| `Assembly.JoinFirst` | src/ingestion/ingestion_pipeline.py:70-72 | the reduce over the first `n` tables is sorted and has exactly the timestamps of the first `n` series |
| `Assembly.JoinFirstKeys` | src/ingestion/ingestion_pipeline.py:70-72 | the reduced table has cells only for the first `n` categories |
| `Assembly.JoinFirstSound` | src/ingestion/ingestion_pipeline.py:70-72 | every cell of the reduced table is a point of the series its category names |
| `Assembly.JoinFirstComplete` | src/ingestion/ingestion_pipeline.py:70-72 | every point of the first `n` series has its cell, with its value, in the reduced table |
| `Assembly.JoinFirstCells` | src/ingestion/ingestion_pipeline.py:70-72 | the two facts above together |
| `Assembly.Assemble` | src/ingestion/ingestion_pipeline.py:60-73 | a parsed batch is strictly increasing, its timestamps are exactly the union of all series' timestamps, and it is empty exactly when no series has a point |
| `Assembly.AssembleCells` | src/ingestion/ingestion_pipeline.py:98-109 | in a parsed batch a category has a value at a row exactly when its series has a point at that timestamp, the value is the point's, and no other category appears |
| `Assembly.SupportSeries` | src/ingestion/ingestion_pipeline.py:99-105 | support series keep their points, and each label becomes its category |
| `Probe.LastTs` | src/ingestion/ingestion_pipeline.py:74 | a batch's last timestamp is NaT exactly for an empty batch, and otherwise a timestamp of the batch that no row exceeds |
| `Probe.Chosen` | src/ingestion/ingestion_pipeline.py:76-79 | the fold's index is "none" only before the first candidate, and always one of the candidates seen |
| `Probe.ChosenIsFirstFreshest` | src/ingestion/ingestion_pipeline.py:50-82 | with no empty batch, the fold keeps a batch whose last timestamp is at least every candidate's, and the earliest such on ties |
| `Probe.FirstFreshestUnique` | src/ingestion/ingestion_pipeline.py:76-79 | the earliest freshest candidate is unique |
| `Probe.EmptySeedIsKept` | src/ingestion/ingestion_pipeline.py:74-79 | an empty first batch seeds the fold with NaT and is never replaced |
| `Probe.NewestBatch` | src/ingestion/ingestion_pipeline.py:49-82 | the candidate loop yields nothing exactly for an empty candidate list, otherwise one of the batches: the fold's choice, and with no empty batch the earliest freshest one |
| `Probe.ParseBatch` | src/ingestion/ingestion_pipeline.py:60-73 | a response with no series fails, as `reduce` raises; otherwise the batch is sorted with the union of the series' timestamps |
| `Probe.ParseAll` | src/ingestion/ingestion_pipeline.py:52-73 | parsing all candidates fails exactly when one has no series, and otherwise gives each candidate's batch in order |
| `Probe.NewestCandidate` | src/ingest_data.py:31-59 | fetching fails exactly when there is no candidate or one cannot be parsed; otherwise it gives the sorted batch of one candidate, the fold's choice |
| `MergeEngine.Append` | src/ingestion/ingestion_pipeline.py:136-141 | the appended history starts with the old rows unchanged, and after them holds exactly the new rows later than the old end |
| `MergeEngine.FresherAppendGrows` | src/ingestion/ingestion_pipeline.py:128-141 | a fresher batch adds at least one row |
| `MergeEngine.AppendStale` | src/ingest_data.py:77-78 | a batch no later than the history adds nothing |
| `MergeEngine.AppendCovers` | src/ingestion/ingestion_pipeline.py:136-141 | after an append the history reaches at least as far as every row of the batch |
| `MergeEngine.AppendEnd` | src/ingestion/ingestion_pipeline.py:136-141 | after appending a fresher batch the history ends where the batch ends |
| `MergeEngine.AppendKeepsOrder` | src/ingestion/ingestion_pipeline.py:161-166 | appending a sorted batch to a sorted history keeps it strictly increasing |
| `MergeEngine.BandwidthStep` | src/ingestion/ingestion_pipeline.py:124-142 | bandwidth: no change, and no gap check, exactly when the batch is not fresher; failure exactly when it is fresher and starts 11 minutes or more after the old end; otherwise a write of the old rows followed by the new rows after the old end |
| `MergeEngine.SupportStep` | src/ingestion/ingestion_pipeline.py:148-167 | support: no change exactly unless the batch is fresher and its last point falls in the 07:00 UTC hour; then failure exactly when it starts 2 days or more after the old end; otherwise the same append as bandwidth |
| `MergeEngine.BandwidthRemergeIsNoop` | src/ingestion/ingestion_pipeline.py:124-142 | merging the same bandwidth batch again after a merge that did not fail changes nothing |
| `MergeEngine.SupportRemergeIsNoop` | src/ingestion/ingestion_pipeline.py:148-167 | merging the same support batch again after a merge that did not fail changes nothing |
| `MergeEngine.BandwidthKeepsOrder` | src/ingestion/ingestion_pipeline.py:136-141 | the bandwidth step keeps a sorted history sorted, and a write ends at the batch's end |
| `MergeEngine.SupportKeepsOrder` | src/ingestion/ingestion_pipeline.py:161-166 | the support step keeps a sorted history sorted, and a write ends at the batch's end |
| `MergeEngine.BandwidthGapEdges` | src/ingestion/ingestion_pipeline.py:131-134 | a gap of exactly 10 minutes or of 10m59.999s is accepted, 11 minutes is refused, an overlapping start is accepted |
| `MergeEngine.SupportGapEdges` | src/ingestion/ingestion_pipeline.py:152-159 | a start 1d23:59:59.999 after the old end is accepted, 2 days is refused, a batch ending at 08:00 is ignored |
| `MergeEngine.WritesAreAppends` | src/ingestion/ingestion_pipeline.py:136-166 | whatever the feed, a write is the plain filter-append of the batch to the history |
| `Pipeline.MergeWithOld` | src/ingestion/ingestion_pipeline.py:113-167 | a bandwidth gap stops the run with both histories unchanged; otherwise the bandwidth result is kept, and a support gap then reports the support gap and leaves only the support history unchanged |
| `Pipeline.SupportGapKeepsBandwidthWrite` | src/ingestion/ingestion_pipeline.py:139-159 | a support gap after a bandwidth append reports the support gap and keeps the longer, appended bandwidth history |
| `Pipeline.StaleMergeIsNoop` | src/ingestion/ingestion_pipeline.py:124-155 | batches no fresher than the histories leave both unchanged with no error |
| `Pipeline.RemergeIsNoop` | src/ingestion/ingestion_pipeline.py:113-167 | after a clean merge, merging the same two batches again changes nothing |
| `Pipeline.MergeKeepsOrder` | src/ingestion/ingestion_pipeline.py:136-166 | sorted histories and batches leave both histories sorted |
| `Pipeline.Run` | src/ingestion/ingestion_pipeline.py:169-176 | a fetch failure (no candidate, or a response without series) leaves the store untouched; otherwise the outcome is the merge of the fold's chosen bandwidth batch and the support batch, and sorted histories stay sorted |
| `IngestData.MergeWithOld` | src/ingest_data.py:64-80 | with no history file the batch is written verbatim; otherwise the merge fails exactly on an empty side or a start 11 minutes or more after the old end, and else keeps the old rows followed by exactly the new rows after the old end |
| `IngestData.StaleBatchKeepsContent` | src/ingest_data.py:72-80 | a batch no later than the history passes the gap check and leaves the content as it was |
| `IngestData.MergeIdempotent` | src/ingest_data.py:66-80 | merging the same non-empty batch twice gives the record of merging it once, from a first write or from a history |
| `IngestData.EmptyFirstWriteThenFails` | src/ingest_data.py:65-75 | an empty batch is written as the first record, and merging it again then fails the gap check |
| `IngestData.MergeKeepsOrder` | src/ingest_data.py:77-78 | a sorted batch merged into a sorted history leaves it sorted |
| `IngestData.AgreesWithPipeline` | src/ingest_data.py:72-78 | on non-empty tables this merge fails exactly when the pipeline's bandwidth step does, and otherwise yields the same history |
| `IngestData.FreshBatchAgrees` | src/ingest_data.py:72-78 | for a fresher batch both merges run the same gap check and the same append |
| `IngestData.IngestOnce` | src/ingest_data.py:83-85 | the script's run fails to fetch exactly when there is no candidate or one has no series; otherwise its result is the merge of the fold's chosen batch (a gap failure or the merged history), so a first write always succeeds; a success keeps the old rows as a prefix and a sorted history sorted |

## Left out

- HTTP requests, user-agent randomisation and the cache-buster strings built from the clock. The candidates are an input list; the pipeline's four and the script's three come from the clock.
- JSON decoding (`loads`, `response.json()`). A candidate is its already-decoded list of series. The payload slice is modelled on its own (`Text.JsonpDocument`).
- A response that cannot be decoded raises and ends the run; undecodable responses are not represented.
- CSV reading and writing, and pandas dtypes. A history is an in-memory table. Writing the whole history back is the `Write` step's rows, and that write is not atomic.
- `int(x[1])` truncation of bandwidth values. Values are integers throughout.
- Support values are kept as given.
- Duplicate timestamps within one series are excluded by a precondition (`Assembly.Joinable`). pandas would form a cartesian product of the duplicate rows there.
- Two series with the same label (or the same support category) are excluded by a precondition too. pandas would rename the clashing columns.
- `Assembly.Assemble` leaves out the final `sort_values`, because the merge-join already yields ascending order. The contract states this order.
- Timestamps are unbounded integers. pandas' nanosecond range limits and the floating-point `total_seconds()` are not modelled. Neither matters below the range's limits.
- The code has no category-completeness check on a batch and no resampling onto a 10-minute grid, so the model has neither.
- `IngestionPipeline` has no first-write case (it always reads an existing file), and one feed's gap failure is not isolated from the other (the `assert` ends the run); the model follows both.
- The gap rule is the code's floor division: a bandwidth batch is accepted when it starts less than 11 whole minutes after the old end, even 10m59.999s after it, and a support batch when it starts less than 2 whole days after.
- `run_ingestion.py` (the entry point) and `streamlit_app.py` (the dashboard) have no merge logic.
