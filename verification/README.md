# Milvus client and coordinator cores, modelled in Dafny

This project models the parts of Milvus whose behaviour is hardest to see from a single function, and proves what
they promise over every input, every run or every trace.

| file | what it models |
|---|---|
| `IdRanges`, `IdAllocatorSpec` | ID ranges; one iteration of the batching allocator as a function, and exactly when its arithmetic is safe |
| `IdAllocatorRuns`, `IdAllocatorLimits` | safety over whole runs; exactly the sizes, and the numbers of declined answers, for which some run hands out an ID twice |
| `LocalAllocator`, `CachedAllocator` | the one-block allocator and the batching allocator as classes, with the main loop |
| `LevelZeroView` | the level-zero compaction planner |
| `NullableCells`, `NullableColumn` | the two encodings of a nullable column, and the column that keeps them in place |
| `StoredColumn` | columns as values with their encoding: reading a cell, appending, the wire form |
| `RowColumns`, `RowInsert` | rows to columns, and what becomes of such columns as a request |
| `InsertRequest`, `RowFilling` | columns to an insert request, columns back to rows |
| `TagSettings` | the struct-tag parser with escaped separators |
| `VectorCodec`, `SparseEmbedding` | vector columns and sparse embeddings as bytes |
| `SearchResults` | splitting a flat search answer per query, and the iterator's row budget |
| `DeleteFilter` | the delete map of compaction and the filter that uses it |
| `SchemaRetry` | the schema cache and the retry on a schema mismatch |
| `AnalyzeMeta` | the analyze-task table, its catalog and its recovery |
| `StateChannel` | the channel watch state machine |
| `Wrappers` | what several of them share |

Every method follows the source's loop or field update and is proved against a function of its inputs or of the old
state; the lemmas then say what that function means. What the outside world answers (the root coordinator, the
catalog, the server, the order in which Go walks a map, the swaps a sorting routine makes) is a parameter or a free
choice, and everything is proved for all of them. Calls that can panic in Go return a value that says so.

## Where the code does less than one might expect

Each of these is a lemma or a clause, with the exact condition where there is one.

- **ID allocator.** It does not look at the status of the root coordinator's response. When no IDs can be allocated,
  the response has an error status, the ID 0 and the count that was asked for, and the allocator takes the first IDs
  for its block. Two such answers give two clients the ID 0 (`TwoDeclinesReuseIds`); with one, ranges may lie in no
  granted block, and every range does exactly if nothing is served from such an answer (`RunsStayInBlocksIff`).
- Needed and available counts are `uint32` and wrap. With at most one such answer, blocks of up to n IDs and requests
  of up to m, no run hands out an ID twice if and only if n + m is below 2^32 or m is at most 429453 (`RunsSafeIff`,
  `PickSafeIff`): below that size no batch, which holds at most 10001 requests, adds up to 2^32. If every answer
  carries the count that was asked for, or none, as the root coordinator's do, the bound is m at most 858821
  (`AskedRunsSafeIff`). The size that is asked for is exact for all batches only up to 429453 (`AskedForExactIff`).
- A forced sync is reported as done to its clients also when the call to the root coordinator failed (`OnForceSync`).
  Closing fails the requests still on the channel, but never answers clients that wait for a forced sync
  (`RevokeRequest`). A request for zero IDs is served by the batching allocator and refused by the one-block
  allocator; on all other sizes the two agree (`ZeroRequestIsServed`, `BlockRefinesLocal`).
- **Level-zero planner.** The comment on `forceTrigger` promises that a plan satisfies the maximum. The limits are
  only looked at once both running totals are non-zero, so a plan stays within them exactly when its warm-up prefix
  does, and a plan of more than one segment can exceed them (`PickAdmissibleIff`, `ZeroSizedSegmentBreaksMaximum`).
  `Equal` ignores how often an ID occurs; it means the same IDs in some order, for every other view, exactly if a
  view's own IDs are distinct or all the same (`EqualMeansPermutationIff`).
- **Nullable columns.** In sparse mode, the mode of nullable columns in all search and query results, `Get` does not
  look at the flags: a null reads as its filler, without an error (`SparseGetIsTheCellIff`). So filling a row writes
  the filler of a null, and an insert merges the filler of a sparse dynamic column (`FillFailsIff`,
  `MergedCellIsLogicalIff`); a row comes back exactly if no wanted value is null (`RowsComeBack`). An empty compact
  nullable column among the dynamic ones makes merging panic (`MergePanicsIff`).
- `CompactNullableValues` leaves the column in sparse mode. Building the request again from the same columns, as a
  retried insert does, panics if and only if a null comes before a valid cell in a sparse column (`ResendPanicsIff`).
  In sparse mode `AppendNull` stores no filler, so appends keep a sparse column valid if and only if no null is among
  them (`SparseAppendsValidIff`). `Get` past the end of a compact column panics, and so does reading any cell of a
  slice of one (`Slice`).
- **Tag parser.** It panics if and only if the tag ends in a backslash, and printed settings come back if and only if
  none of them ends in a backslash (`PanicIff`, `RoundTripIff`).
- **Row inserts.** Without a dynamic field nobody counts the rows: two rows with different fields are accepted as one
  (`MixedRowsAccepted`). With one, the left-over fields arrive nested under the empty name (`LeftOversAreNested`). The
  size check lets any number of empty columns precede the first non-empty one. A vector dimension is compared as text,
  so a dimension parameter that is not a plain decimal refuses every row, and so does a string field, which gets a
  varchar column (`RowInsertAcceptedIff`). A field of an unknown type panics as soon as a row has it, and a JSON field
  when its value is nil (`AddField`). An empty sparse-vector column panics when it is encoded (`SendPanicsIff`).
- **Missing deletes.** `GetMissingDeleteCount` subtracts deleted rows, not deleted keys: it is the number of deletions
  that met no row exactly if no key deleted two rows, or none is missing (`SecondRowHidesAMiss` shows the difference).
- **Slicing and iterating.** A dynamic output field is lost when a result set is sliced: its column turns into the
  JSON column it looks into, under that column's name (`CutLosesDynamicField`). So a slice keeps its rows exactly if
  no column is dynamic, and the iterator returns the first L rows exactly if the batch it cuts has none
  (`SliceHitsIff`, `IteratorReturnsPrefix`).
- **Iterator.** An answer without queries, or one whose IDs cannot be parsed, panics (`Fetch`), and errors in the
  other columns are handed on with the rows without being returned (`ErrorsPassAsRows`).
- **Sparse embeddings.** A deserialized embedding has dimension 0, whatever its positions.

## Model

| member | source | states |
|---|---|---|
| IdAllocatorSpec.PickWithin | milvus/internal/allocator/id_allocator.go:115-130 | As long as no running need wraps, the picked requests fit the block and one more would not |
| IdAllocatorSpec.PickSafeIff | milvus/internal/allocator/id_allocator.go:115-130 | Over all batches a channel can hold, picking never takes more than the block holds if and only if block size plus largest request is below 2^32 or no request exceeds 429453 |
| IdAllocatorSpec.PassTakes | milvus/internal/allocator/id_allocator.go:115-137 | As long as no running need wraps, a pass takes its picked sizes back to back from the front of the block, and the first one left has no room |
| LocalAllocators.LocalAllocator.Alloc | milvus/internal/allocator/local_allocator.go:40-53 | A positive count that fits yields exactly that many IDs from the front of the block; anything else is an error that changes nothing |
| LocalAllocators.ServePassRefinesLocal | milvus/internal/allocator/id_allocator.go:115-137 | As long as no running need wraps, one pass leaves the block that the one-block allocator leaves for the same sizes and hands out the ranges it allocates, except that it refuses size 0; both answer alike exactly if no served size is 0, and the pass stops where the other is exhausted |
| LocalAllocators.ZeroRequestIsServed | milvus/internal/allocator/local_allocator.go:40-44 | The input on which they differ: a request for no IDs |
| IdAllocatorRuns.BlockRefinesLocal | milvus/internal/allocator/local_allocator.go:40-53 | Until a block is replaced, all batches together leave the block and hand out the ranges that the one-block allocator does for their served sizes, and the answers agree exactly if no served size is 0 |
| IdAllocatorRuns.BatchIsPasses | milvus/internal/allocator/cached_allocator.go:191-203 | The allocator's iteration over a batch is what a run does with it: one pass, and, if requests are left and the call does not fail, a second pass over them in what came back |
| IdAllocatorRuns.RunsNeverReuseIds | milvus/internal/allocator/cached_allocator.go:171-203 | Over every run of batches, forced syncs, ticks, failing calls and declined answers in which no sum wraps, ranges handed out are pairwise disjoint if at most one declined answer came with a count |
| IdAllocatorRuns.RunsStayInBlocksIff | milvus/internal/allocator/id_allocator.go:100-108 | Over every such run, with any number of declined answers, each range lies in one granted block if and only if no ID was served from a declined answer |
| IdAllocatorLimits.RunsSafeIff | milvus/internal/allocator/cached_allocator.go:171-203 | For answers of up to n IDs, requests of up to m and up to d declined answers: no fair run hands out an ID twice if and only if n + m is below 2^32 or m is at most 429453, and d is at most 1 or there is nothing to serve |
| IdAllocatorLimits.AskedRunsSafeIff | milvus/internal/allocator/id_allocator.go:86-109 | If every answer carries the count that was asked for, or is declined without one: no fair run hands out an ID twice if and only if no request exceeds 858821, and at most one answer is declined with a count or there is nothing to serve |
| IdAllocatorLimits.HarmlessNeverWraps | milvus/internal/allocator/id_allocator.go:115-130 | In a run with harmless sizes no sum ever wraps |
| IdAllocatorLimits.AskedNeverWraps | milvus/internal/allocator/id_allocator.go:77-130 | Nor does one in a run whose answers carry the counts that are asked for, with requests of up to 858821 |
| IdAllocatorLimits.TwoDeclinesReuseIds | milvus/internal/rootcoord/root_coord.go:1819-1829 | Two declined answers with a count, of any size, make two clients share the ID 0 |
| IdAllocatorLimits.LongRunReusesIds | milvus/internal/allocator/id_allocator.go:86-130 | For every larger request size there is a batch that overruns the very block that is asked for it, and a run that hands out one ID twice |
| IdAllocatorLimits.OverrunReusesIds | milvus/internal/allocator/id_allocator.go:115-137 | Whatever batch is picked past the end of its block, some run with disjoint blocks hands out one ID twice |
| IdAllocatorLimits.OversizedRequestReusesIds | milvus/internal/allocator/id_allocator.go:115-137 | So it does for every two requests that add up to 2^32, the first of which fits |
| IdAllocatorRuns.RunsHandOutRisingIds | milvus/internal/allocator/id_allocator.go:50-51 | If every adopted block lies above the one before it and no sum wraps, IDs only ever grow in the order of service, as the constructor's comment promises |
| IdAllocatorRuns.ServedPrefixFailedSuffix | milvus/internal/allocator/cached_allocator.go:191-203 | Served requests are a prefix of the batch with ranges of their own sizes; all others fail, with the sync error exactly when the call to the root coordinator failed |
| IdAllocatorSpec.AskedForExactIff | milvus/internal/allocator/id_allocator.go:77-90 | The sum of a full batch is exact for all batches if and only if no request exceeds 429453 |
| IdAllocatorSpec.AskedFor | milvus/internal/allocator/id_allocator.go:86-90 | Never less than 200000, and the sum of the requests if that is between 200000 and 2^32 |
| IdAllocatorRuns.GenerousGrantServesAll | milvus/internal/allocator/id_allocator.go:86-130 | If what comes back carries at least the count that was asked for, no request of a batch within that bound fails |
| CachedAllocators.IDAllocator.GatherReqIDCount | milvus/internal/allocator/id_allocator.go:77-84 | The sum of the waiting counts, modulo 2^32 |
| CachedAllocators.IDAllocator.SyncID | milvus/internal/allocator/id_allocator.go:86-109 | Asks for the waiting sum but never less than 200000; only a failing call changes nothing, and any response replaces the whole cache, one with an error status by a block from ID 0 |
| CachedAllocators.IDAllocator.PickCanDo | milvus/internal/allocator/id_allocator.go:115-130 | Splits the waiting requests at the pick length: a FIFO prefix to serve, the rest still waiting |
| CachedAllocators.IDAllocator.Process | milvus/internal/allocator/id_allocator.go:132-137 | The request gets the next free ID and the cache moves on by its count |
| CachedAllocators.IDAllocator.Sync | milvus/internal/allocator/cached_allocator.go:218-238 | The root coordinator is asked only on a timeout or when requests wait; the error that is kept is the one of this call |
| CachedAllocators.IDAllocator.FinishRequest | milvus/internal/allocator/cached_allocator.go:270-278 | Every picked request is notified once, in order, with back-to-back ranges |
| CachedAllocators.IDAllocator.FailRemainRequest | milvus/internal/allocator/cached_allocator.go:249-268 | Every request still waiting is notified once with the reason, and none stays |
| CachedAllocators.IDAllocator.FinishSyncRequest | milvus/internal/allocator/cached_allocator.go:240-247 | Every client of a forced sync is notified once, in order |
| CachedAllocators.IDAllocator.OnRequests | milvus/internal/allocator/cached_allocator.go:191-203 | Everything on the channel is answered exactly once in this iteration, as the batch step says, and nothing stays in flight |
| CachedAllocators.IDAllocator.OnForceSync | milvus/internal/allocator/cached_allocator.go:173-180 | All forced syncs on the channel are answered once, also after a failing call, which leaves the cache alone; 200000 IDs are asked for, and any response replaces the cache |
| CachedAllocators.IDAllocator.OnTick | milvus/internal/allocator/cached_allocator.go:182-189 | At the head of the loop no request waits, so a tick notifies nobody, asks for 200000 IDs and only renews the cache |
| CachedAllocators.IDAllocator.RevokeRequest | milvus/internal/allocator/cached_allocator.go:280-286 | Closing fails every request still on the channel exactly once |
| CachedAllocators.IDAllocator.Wake | milvus/internal/allocator/cached_allocator.go:172-203 | One turn of the loop moves cache and handed-out ranges exactly as one step of a run, asks for the size the run says, if at all, notifies everybody it woke up for once and nobody else, and leaves nothing in flight |
| CachedAllocators.IDAllocator.MainLoop | milvus/internal/allocator/cached_allocator.go:165-209 | Over any finite script of wake-ups, the clients hold exactly the ranges of the run, and everybody who arrived, with a request or for a forced sync, has been notified exactly once, in the order of arrival |
| CachedAllocators.StartAndRun | milvus/internal/allocator/id_allocator.go:51-70 | The program itself: a new allocator driven through any script without wrapping sums notifies every client once, never gives two clients one ID if at most one declined answer came with a count, and serves each from one granted block if and only if none is served from a declined answer |
| LevelZeroViews.PickByMaxCountSize | milvus/internal/datacoord/compaction_l0_view.go:209-225 | Picks the prefix of the greedy rule, never nothing from a non-empty list, and returns the totals of what it picked |
| LevelZeroViews.PickedSegmentsFit | milvus/internal/datacoord/compaction_l0_view.go:209-225 | Every picked segment kept both totals within the limits or joined while a total was zero; an early stop was forced |
| LevelZeroViews.PickAdmissibleIff | milvus/internal/datacoord/compaction_l0_view.go:196-225 | A round is within both limits if and only if its warm-up prefix is, and the same if single segments are let pass |
| LevelZeroViews.PositivePickAdmissible | milvus/internal/datacoord/compaction_l0_view.go:196-225 | With positive counts and sizes every round is a single segment or within both limits |
| LevelZeroViews.ZeroSizedSegmentBreaksMaximum | milvus/internal/datacoord/compaction_l0_view.go:196-225 | A zero-sized first segment lets a round exceed the count limit, whatever that limit is |
| LevelZeroViews.ForceTriggerAll | milvus/internal/datacoord/compaction_l0_view.go:97-139 | Terminates, and plans one view per round, with that round's segments and the other fields of the original view, and the last round's reason; with distinct IDs the views together hold exactly the segments below the earliest growing position, each once, in their order |
| LevelZeroViews.ValidTakes | milvus/internal/datacoord/compaction_l0_view.go:99-101 | The valid segments are exactly those below the earliest growing position, each where it was among the others |
| LevelZeroViews.WithoutTakes | milvus/internal/datacoord/compaction_l0_view.go:129-135 | What remains after a round is exactly the segments whose ID was not picked, each where it was among the others |
| LevelZeroViews.DistinctRounds | milvus/internal/datacoord/compaction_l0_view.go:129-135 | With distinct IDs, removing the picked IDs is the same as cutting the list behind the pick |
| LevelZeroViews.RoundsPartition | milvus/internal/datacoord/compaction_l0_view.go:111-136 | With distinct IDs the rounds are exactly the valid segments, in order, in non-empty groups |
| LevelZeroViews.RoundsCoverIds | milvus/internal/datacoord/compaction_l0_view.go:111-136 | Whatever the IDs, every valid ID is planned in some round |
| LevelZeroViews.RoundsOptimal | milvus/internal/datacoord/compaction_l0_view.go:97-139 | No split of the segments into consecutive admissible groups uses fewer groups |
| LevelZeroViews.RoundsAreASplit | milvus/internal/datacoord/compaction_l0_view.go:97-139 | With positive counts and sizes the rounds are such a split, so they attain the minimum |
| LevelZeroViews.ConsecutiveRoundsOverflow | milvus/internal/datacoord/compaction_l0_view.go:97-139 | Any two consecutive rounds together break the count limit or the size limit |
| LevelZeroViews.ForceTrigger | milvus/internal/datacoord/compaction_l0_view.go:77-95 | A view of the first of the rounds that are planned in all, with the other fields of the original view, or none |
| LevelZeroViews.Trigger | milvus/internal/datacoord/compaction_l0_view.go:145-194 | Fires exactly when a valid segment exists and the minimum count or size is reached, with a view of the first forced round and the count named first |
| LevelZeroViews.EqualMeansPermutationIff | milvus/internal/datacoord/compaction_l0_view.go:62-75 | Equality with any other view means the same IDs in some order if and only if the view's own IDs are distinct or all the same |
| LevelZeroViews.EqualIffPermutation | milvus/internal/datacoord/compaction_l0_view.go:62-75 | For a view with distinct IDs, equality means the same IDs in some order |
| LevelZeroViews.EqualIgnoresMultiplicity | milvus/internal/datacoord/compaction_l0_view.go:62-75 | With repeated IDs, equal views need not hold the same IDs the same number of times |
| NullableCells.AppendCompact | milvus/client/column/generic_base.go:77-91 | One append to a consistent compact column adds exactly that logical cell and keeps it consistent |
| NullableCells.AppendsRepresentCells | milvus/client/column/generic_base.go:204-214 | After any sequence of values and nulls a compact column stands for exactly those cells, and the mapping kept by the appends is the one validation computes |
| NullableCells.GetIsTheCell | milvus/client/column/generic_base.go:136-142 | Reading a compact column gives cell i, errs exactly on nulls, and panics exactly out of range |
| NullableCells.SparseGetIsTheCellIff | milvus/client/column/generic_base.go:136-142 | Reading a sparse column gives what is stored: the logical cell exactly where it is valid, and a filler without an error at a null |
| NullableCells.SparseAppendsValidIff | milvus/client/column/generic_base.go:204-214 | Appends keep a sparse column valid if and only if no null is appended |
| NullableCells.PackKeepsCells | milvus/client/column/generic_base.go:285-302 | Compacting a sparse column and reopening it as compact gives the same logical cells |
| NullableCells.PackOfSlice | milvus/client/column/generic_base.go:98-117 | Slicing then compacting is cutting the compacted values at the ranks of the bounds |
| NullableCells.SlicedCells | milvus/client/column/generic_base.go:98-117 | Slicing before or after taking the logical view agrees |
| NullableCells.CompactTwiceIff | milvus/client/column/generic_base.go:285-302 | A second compaction stays in bounds if and only if no null precedes a valid cell |
| NullableCells.CompactTwiceIsIdentity | milvus/client/column/generic_base.go:285-302 | Where a second compaction does not panic, it changes nothing |
| NullableColumns.Column.New | milvus/client/column/nullable.go:57-67 | Wraps the caller's slice, nullable exactly when flags are given, and validated exactly when values and flags fit |
| NullableColumns.Column.ValidateNullable | milvus/client/column/generic_base.go:245-283 | Sets the mapping of a compact column to the rank function and answers exactly whether values and flags fit; a validated column is unchanged |
| NullableColumns.Column.AppendValue | milvus/client/column/generic_base.go:77-91 | A value or null extends the column as the append function says; a null on a non-nullable column is refused without effect |
| NullableColumns.Column.AppendNull | milvus/client/column/generic_base.go:204-214 | Adds a null flag, and -1 to the mapping only in compact mode; refused exactly on non-nullable columns |
| NullableColumns.Column.Get | milvus/client/column/generic_base.go:136-142 | Reads through the mapping in compact mode and directly otherwise, with the range check on the mapped index |
| NullableColumns.Column.IsNull | milvus/client/column/generic_base.go:216-224 | Errs exactly out of range, and else says whether the logical cell is null |
| NullableColumns.Column.SetNullable | milvus/client/column/generic_base.go:230-243 | Turning nullability on marks existing values valid once; turning it off erases the flags |
| NullableColumns.Column.CompactNullableValues | milvus/client/column/generic_base.go:285-302 | The values become the subsequence of valid ones, in order, in the shared array, touching nothing outside the column; panics exactly when a valid flag lies past the values |
| NullableColumns.Column.CompactInPlace | milvus/client/column/generic_base.go:290-301 | The in-place loop computes the packed values and their ranks and leaves the rest of the array alone |
| NullableColumns.Column.Slice | milvus/client/column/generic_base.go:97-117 | Panics exactly on bounds that are negative, reversed or behind the capacity; for sparse columns and those without nulls the cells of a slice are the slice of the cells; every cell of a slice of a compact column panics, and it validates exactly if it has no null |
| NullableColumns.CompactAndReopen | milvus/client/column/nullable.go:57-67 | A validated sparse column, compacted in place and reopened in compact mode, has the same logical cells |
| StoredColumns.ReadIsTheCellIff | milvus/client/column/generic_base.go:136-142 | In every mode, reading gives the logical cell except at the nulls of a sparse column; past the end only a compact nullable column panics |
| StoredColumns.BuiltIs | milvus/client/column/generic_base.go:77-91 | A column built by appends stands for the appended cells |
| StoredColumns.BuiltNext | milvus/client/column/generic_base.go:204-214 | Building one more cell is one append |
| StoredColumns.WireKeepsCells | milvus/client/column/generic_base.go:119-127 | What is sent for a sound column, made nullable or not, are its logical cells |
| StoredColumns.SendPanicsIff | milvus/client/column/sparse.go:39-47 | A sound column cannot be sent exactly if it is a sparse-vector column without a valid cell |
| StoredColumns.SecondSendPanicsIff | milvus/client/column/generic_base.go:285-302 | A column that was sent cannot be sent again exactly if it is sparse and a null comes before a valid cell |
| RowColumns.AddField | milvus/client/row/data.go:124-146 | An auto-ID key that is not kept is dropped, a field without a column is left, and any other goes to its column; it errs exactly on a value of another type or a null its column does not take, and panics exactly if no column came back or a JSON column gets a nil |
| RowColumns.AddRow | milvus/client/row/data.go:116-146 | The columns and left-overs of a row do not depend on the order in which its fields come up |
| RowColumns.AnyToColumns | milvus/client/row/data.go:67-171 | Succeeds exactly with a schema and a non-empty list of rows that fit and are supported, with their columns and left-over records; it errs or panics only for a row that gives cause |
| RowColumns.FieldOfIs | milvus/client/row/data.go:91-93 | Of fields with one name the last one counts |
| RowColumns.CellsAreConserved | milvus/client/row/data.go:116-162 | Every field of every row is in exactly one place: its column at its rank, nowhere as an auto-ID key, or that row's record |
| RowColumns.NothingIsAdded | milvus/client/row/data.go:116-162 | No column or record holds anything that was not in a row, and every column has its field's type, nullability and dimension |
| RowColumns.ColumnsTranspose | milvus/client/row/data.go:116-170 | Where all rows have a field, cell i of its column is row i's value |
| InsertRequests.ProcessInsertColumns | milvus/client/milvusclient/write_options.go:63-152 | Refuses exactly columns without distinct schema names, agreeing sizes, matching types and dimensions; panics exactly if sending a fixed column or merging does; else carries each fixed column compacted and all others merged |
| InsertRequests.RequestKeepsCells | milvus/client/milvusclient/write_options.go:136-141 | What the request carries for a schema field are the logical cells of its column, in whatever mode it is |
| InsertRequests.CompactAll | milvus/client/milvusclient/write_options.go:136-141 | All fixed columns are compacted and encoded, in any order; one that runs out of bounds, and a sparse-vector column without values, is a panic |
| InsertRequests.ResendPanicsIff | milvus/client/milvusclient/write_options.go:136-141 | Once it went through, building the request again from the same columns panics exactly if a fixed sparse column has a null before a valid cell |
| InsertRequests.MergeDynamicColumns | milvus/client/milvusclient/write_options.go:154-182 | One record per row, holding what each dynamic column reads as; only a panic of a read stops it |
| InsertRequests.MergePanicsIff | milvus/client/milvusclient/write_options.go:156-161 | Merging sound columns panics exactly if there are rows and an empty compact nullable column |
| InsertRequests.FixedColumnIs | milvus/client/milvusclient/write_options.go:95-100 | What the request is built from for each schema field is the one column of its name, made nullable if the field is |
| InsertRequests.MergedCellIs | milvus/client/milvusclient/write_options.go:154-161 | Row i of the merged records has what cell i of each dynamic column reads as, the last one's where names collide |
| InsertRequests.MergedCellIsLogicalIff | milvus/client/milvusclient/write_options.go:158-161 | That is the logical cell unless it is a null of a sparse column, whose filler is merged |
| RowInserts.RowInsertAcceptedIff | milvus/client/milvusclient/write_options.go:319-335 | Of columns made from accepted rows only the sizes, the varchar columns of string fields, and vector dimensions not written as plain decimals can be refused, and encoding them never panics |
| RowInserts.RowInsertKeepsRowsIff | milvus/client/milvusclient/write_options.go:319-335 | A row insert is accepted with as many rows as were given if and only if every stored field is in all rows and gets a column of its type and dimension, and something counts the rows |
| RowInserts.MixedRowsAccepted | milvus/client/milvusclient/write_options.go:75-85 | Two rows with one different field each are accepted as a single row |
| RowInserts.LeftOversAreNested | milvus/client/milvusclient/write_options.go:142-149 | A row's left-over fields arrive as one value under the empty name |
| RowFillings.FillData | milvus/client/milvusclient/results.go:207-225 | The fold over the columns: the first wanted cell that cannot be read ends it |
| RowFillings.FilledIs | milvus/client/milvusclient/results.go:207-225 | It succeeds exactly if every wanted cell can be read, and then writes each of them and nothing else |
| RowFillings.FirstFailureDecides | milvus/client/milvusclient/results.go:209-220 | The first wanted cell that cannot be read decides whether filling errs or panics, whatever comes behind it |
| RowFillings.RowsComeBack | milvus/client/milvusclient/results.go:207-225 | From columns that stand for uniform rows, in any encoding, filling row i succeeds with exactly its own wanted values if and only if none of them is null |
| RowFillings.FillFailsIff | milvus/client/milvusclient/results.go:207-225 | It fails exactly if a wanted value is null in a column that is not sparse; the null of a sparse column is filled in as its filler |
| TagSettings.TakeInEscaped | milvus/client/row/schema.go:170-181 | The in-place merge of escaped pieces, which fails exactly when it runs off the end |
| TagSettings.ParseTagSetting | milvus/client/row/schema.go:165-194 | The nested loops over the rewritten list compute the recursive parser |
| TagSettings.PanicIff | milvus/client/row/schema.go:172-176 | The parser panics if and only if the tag ends in a backslash |
| TagSettings.KeyIs | milvus/client/row/schema.go:184-184 | A key is a part of its text, upper-cased character by character, without blanks at its ends, and only blanks are cut off |
| TagSettings.ParsePrint | milvus/client/row/schema.go:165-194 | What the parser makes of any printed settings, with or without values: one that ends in a backslash swallows the one behind it |
| TagSettings.RoundTrip | milvus/client/row/schema.go:165-194 | Settings that do not end in a backslash are parsed back as printed, with separators, colons and inner backslashes in values; a key without a value is set to itself |
| TagSettings.RoundTripIff | milvus/client/row/schema.go:165-194 | Exactly if no setting ends in a backslash, the parsed settings have every key with its value, or with itself if it has none, and no other key |
| VectorCodec.EncodeVectors | milvus/client/column/conversion.go:217-291 | The flat buffer is all vectors one after the other |
| VectorCodec.DecodeVectors | milvus/client/column/columns.go:218-338 | Cuts the buffer by width, and panics exactly on a zero width without an end, a reversed range, or rows outside the buffer, which rows of no width never are |
| VectorCodec.Width | milvus/client/column/columns.go:218-338 | The elements of a vector hold its components and no further one: 32-bit floats, packed bits, 16-bit floats in two bytes, or bytes |
| VectorCodec.RoundTripIff | milvus/client/column/columns.go:218-338 | Encoding and decoding a column is the identity if and only if every vector has the type's width for the dimension |
| VectorCodec.RangeIsSlice | milvus/client/column/columns.go:230-234 | Decoding rows b to e equals slicing the fully decoded column |
| VectorCodec.HalfWidthEnd | milvus/client/column/columns.go:268-270 | Dividing by the dimension and then by two is dividing by the vector's width in bytes |
| VectorCodec.NarrowIff | milvus/client/column/columns.go:164-168 | Narrowing an int32 list is the identity exactly on values that fit in 8 or 16 bits |
| VectorCodec.BytesOfInt8 | milvus/client/column/columns.go:331-337 | Every int8 survives the way through an unsigned byte |
| SparseEmbeddings.DecodeEncode | milvus/client/entity/sparse.go:66-74 | Deserializing a serialized list gives the same positions and value bits in order |
| SparseEmbeddings.LowestFirst | milvus/client/entity/sparse.go:70-71 | Byte k of a word counts for 256 to the k |
| SparseEmbeddings.EncodeDecode | milvus/client/entity/sparse.go:86-105 | Every byte string whose length is a multiple of 8 is the serialization of what it deserializes to |
| SparseEmbeddings.SwapsInTandem | milvus/client/entity/sparse.go:81-84 | Any sequence of swaps on both lists moves the pairs as if they were one list |
| SparseEmbeddings.SwapsMultiset | milvus/client/entity/sparse.go:81-84 | No sequence of swaps loses or repeats a pair |
| SparseEmbeddings.SliceSparseEmbedding.Swap | milvus/client/entity/sparse.go:81-84 | Both arrays exchange the same two entries in place |
| SparseEmbeddings.SliceSparseEmbedding.Sort | milvus/client/entity/sparse.go:118-118 | Any sorting that only swaps leaves sorted positions and the same multiset of pairs |
| SparseEmbeddings.SomeSwapsSort | milvus/client/entity/sparse.go:76-84 | For all positions there are swaps that sort them |
| SparseEmbeddings.SliceSparseEmbedding.Serialize | milvus/client/entity/sparse.go:66-74 | Writes the pairs in order, little-endian |
| SparseEmbeddings.NewSliceSparseEmbedding | milvus/client/entity/sparse.go:107-125 | Refuses exactly lists of different lengths; otherwise sorted, no pair lost, every position below the dimension and the dimension attained |
| SparseEmbeddings.DeserializeSliceSparseEmbedding | milvus/client/entity/sparse.go:86-105 | Fails exactly on lengths not divisible by 8, and leaves the dimension at zero |
| SearchResults.HandleOne | milvus/client/milvusclient/read.go:67-102 | One query's entry under all error paths, and the offset that moves on regardless |
| SearchResults.EntryOutcome | milvus/client/milvusclient/read.go:75-101 | Which error a query's entry carries, and which lists it has, in terms of the answer: no topk, IDs, group-by values or fields that do not parse, in this order; a query without a topk has no hits |
| SearchResults.HandleSearchResult | milvus/client/milvusclient/read.go:60-105 | One entry per query, each cut at the sum of the topks before it and with its own recall, where there is one for it |
| SearchResults.HitsStayAligned | milvus/client/milvusclient/read.go:81-101 | Row j of query i is one and the same hit in scores, IDs, group-by values and all fields |
| SearchResults.PiecesAreThePrefix | milvus/client/milvusclient/read.go:60-105 | Joining the per-query pieces gives the flat prefix of the announced length back |
| SearchResults.ColumnPiecesAreThePrefix | milvus/client/milvusclient/read.go:94-101 | Joining the per-query pieces of the group-by values and of every field gives the flat prefix back, too, where they parse for these queries |
| SearchResults.Slice | milvus/client/milvusclient/results.go:59-78 | The slice is aligned again, keeps the error, and its count is the clamped length |
| SearchResults.SliceHitsIff | milvus/client/milvusclient/results.go:59-78 | The rows of a slice are the slice of the rows if and only if no column is dynamic or there is no row; IDs, scores, group-by values and all other fields always are |
| SearchResults.CutLosesDynamicField | milvus/client/column/json.go:45-49 | A sliced dynamic column does not answer to its name and reads as the whole JSON document |
| SearchResults.SearchIterator.Next | milvus/client/milvusclient/iterator.go:62-82 | At limit 0 the end is reported without a call; else one call is made, and its reply alone says whether it is an error, the end, a panic or rows; the limit falls by the rows returned, never below 0 |
| SearchResults.AfterOutcome | milvus/client/milvusclient/iterator.go:62-117 | Only a failed call is an error; the end is an empty limit or a first query with no IDs; without a first query or its IDs it panics; else as many scores and IDs as topk and limit allow come back, from the front |
| SearchResults.SearchIterator.Fetch | milvus/client/milvusclient/iterator.go:84-117 | A failed call is an error, no IDs are the end, an answer without queries or without parsed IDs panics, and else the first query's hits come back |
| SearchResults.ErrorsPassAsRows | milvus/client/milvusclient/iterator.go:68-81 | Next hands on rows whose group-by values or fields could not be parsed, with the error inside them |
| SearchResults.SearchIterator.Drain | milvus/client/milvusclient/iterator.go:62-82 | Asking again and again collects what the fold over the replies says |
| SearchResults.IteratorReturnsPrefix | milvus/client/milvusclient/iterator.go:62-117 | Over any stream of replies rows plus remaining limit is always L, and the rows returned are exactly the first L in all but dynamic fields; in these, too, if and only if no batch that has them is cut |
| DeleteFilters.ComposeDeleteFromDeltalogs | milvus/internal/compaction/common.go:59-76 | A log that can be read to its end gives the fold of its records, a broken one gives nothing |
| DeleteFilters.FoldIsNewest | milvus/internal/compaction/common.go:69-72 | The map holds exactly the deleted keys, each with its newest deletion |
| DeleteFilters.OrderDoesNotMatter | milvus/internal/compaction/common.go:59-73 | The map depends only on which records there are, not on order, repetition or batching |
| DeleteFilters.EntityFilter.Filtered | milvus/internal/compaction/entity_filter.go:43-55 | A row goes if it was deleted strictly later, or has reached a positive time to live in whole milliseconds, and exactly one counter moves |
| DeleteFilters.ExpiredIff | milvus/internal/compaction/entity_filter.go:89-103 | A row has expired exactly if the time to live is positive and, in nanoseconds, less than its age counted to the end of the last millisecond |
| DeleteFilters.EntityFilter.GetMissingDeleteCount | milvus/internal/compaction/entity_filter.go:65-75 | Never more than the number of deletions that met none of the rows looked at, and equal to it exactly if no key deleted two rows or none is missing |
| DeleteFilters.MetCount | milvus/internal/compaction/entity_filter.go:77-87 | At least as many rows are deleted as keys met one, and as many exactly if no key deleted two |
| DeleteFilters.SecondRowHidesAMiss | milvus/internal/compaction/entity_filter.go:69-75 | Two rows of one deleted key hide that another deleted key met no row |
| DeleteFilters.EntityFilter.Pass | milvus/internal/compaction/entity_filter.go:43-55 | Over a pass, deleted plus expired plus kept is the number of rows |
| DeleteFilters.KeptIff | milvus/internal/compaction/entity_filter.go:43-103 | A row is kept exactly if the map holds no later deletion of its key and it has not reached a positive time to live |
| DeleteFilters.MapAgreesWithScan | milvus/internal/compaction/entity_filter.go:77-87 | The map decides as a scan of all delete records for a strictly newer one would |
| DeleteFilters.PassesCompose | milvus/internal/compaction/entity_filter.go:43-102 | A pass with D1 and a later one with D2 keep the rows that one later pass with both keeps |
| SchemaRetries.CollectionCache.GetCollection | milvus/client/milvusclient/common.go:23-38 | A cached schema is used without a fetch; otherwise it is fetched once and cached unless the fetch fails |
| SchemaRetries.CollectionCache.Evict | milvus/client/milvusclient/common.go:40-43 | The entry is gone and no other is touched |
| SchemaRetries.RetryIfSchemaError | milvus/client/milvusclient/common.go:61-80 | Every retry follows a mismatch with a new timestamp and refetches; a mismatch is final exactly when two consecutive attempts saw one timestamp or the tenth attempt was made |
| SchemaRetries.ObservedChanges | milvus/client/milvusclient/write.go:35-48 | Attempts at rising times see at most as many changes as the server's schema makes |
| SchemaRetries.AttemptsBounded | milvus/client/milvusclient/common.go:61-80 | Against at most k schema changes there are at most k + 2 attempts, a failed fetch included |
| AnalyzeMetas.AnalyzeMeta.ReloadFromKV | milvus/internal/datacoord/analyze_meta.go:58-73 | Memory holds exactly what the catalog lists, in fresh objects |
| AnalyzeMetas.AnalyzeMeta.SaveTask | milvus/internal/datacoord/analyze_meta.go:75-81 | Catalog and memory take the task together or not at all |
| AnalyzeMetas.AnalyzeMeta.GetTask | milvus/internal/datacoord/analyze_meta.go:83-88 | Returns the table's own object |
| AnalyzeMetas.AnalyzeMeta.AddAnalyzeTask | milvus/internal/datacoord/analyze_meta.go:90-97 | Adds or replaces the task in both places and keeps them equal |
| AnalyzeMetas.AnalyzeMeta.DropAnalyzeTask | milvus/internal/datacoord/analyze_meta.go:99-112 | Removes the task from both places, or from neither |
| AnalyzeMetas.AnalyzeMeta.Apply | milvus/internal/datacoord/analyze_meta.go:114-182 | Updates a fresh clone and publishes it; objects handed out earlier are never written, a failure changes nothing, memory and catalog stay equal |
| AnalyzeMetas.Updated | milvus/internal/datacoord/analyze_meta.go:114-182 | Version and node are set by UpdateVersion alone, which counts up by one; the state by the three others; the reason by UpdateState and FinishTask; the centroids by FinishTask |
| AnalyzeMetas.CrashAndReload | milvus/internal/datacoord/analyze_meta.go:45-73 | After a crash the rebuilt table says exactly what the lost one said |
| AnalyzeMetas.ReloadFromMeta | milvus/internal/datacoord/analyze_inspector.go:51-64 | Queues a clone of every Init, Retry and InProgress task, each once, and of no other |
| AnalyzeMetas.Unfinished | milvus/internal/datacoord/analyze_inspector.go:51-64 | All tasks but those without a state, finished or failed |
| AnalyzeMetas.VersionsGrowOnlyByUpdateVersion | milvus/internal/datacoord/analyze_meta.go:90-129 | Over any run, a stored task's version is the one it was last added with, or had at the start, plus the number of successful UpdateVersion calls since |
| AnalyzeMetas.StateIsLastSet | milvus/internal/datacoord/analyze_meta.go:90-182 | Over any run, a stored task's state is the one set by the last successful addition or update other than of the version |
| AnalyzeMetas.RunAndRestart | milvus/internal/datacoord/analyze_inspector.go:44-64 | After any run and a crash, the restarted inspector queues exactly the tasks the run left unfinished |
| StateChannels.StateChannel.constructor | milvus/internal/datacoord/channel.go:149-164 | A new channel is on the buffer node, in Standby |
| StateChannels.StateChannel.ByWatchInfo | milvus/internal/datacoord/channel.go:166-194 | A channel to be watched, to be released or watched is rebuilt as such; any other, and every one on the buffer node, is on standby |
| StateChannels.StateChannel.TransitionState | milvus/internal/datacoord/channel.go:196-217 | A result for another operation changes nothing; otherwise the transition for its kind is taken |
| StateChannels.Transit | milvus/internal/datacoord/channel.go:196-243 | A success leads to the next of six places in a circle, a duplicate to ToRelease, and a failure from ToWatch, Watching and Releasing to Standby, while it changes no other state |
| StateChannels.LegacyIsNeverReached | milvus/internal/datacoord/channel.go:196-243 | No trace of results, with any errors and operation IDs, enters Legacy |
| StateChannels.StepGoesOneFurther | milvus/internal/datacoord/channel.go:219-243 | A result moves a channel at most one place on its way round, and only a success leads from Watching into Watched |
| StateChannels.WatchedAgainGoesAllTheWay | milvus/internal/datacoord/channel.go:196-243 | Between two entries into Watched the trace visits ToRelease, Releasing, Standby, ToWatch and Watching in that order |
| StateChannels.FiveSuccessesReachStandby | milvus/internal/datacoord/channel.go:219-234 | At most five successes bring every channel to Standby, and from ToWatch fewer do not |

## Left out

- IDRequest: request objects and their Done channels are values and a log of notices; the ID written into a request is carried by its notice.
- IDAllocator: the model does not wrap 64-bit IDs, since IDs come from granted blocks or are among the first 2^32; a missing sync, check, process or pick function is not modelled.
- Goroutine scheduling, blocked senders, the closed check of `Alloc`, tickers and timers of the allocator; `AllocOne`.
- LevelZeroViews.Trigger: sizes are reals, not floating-point numbers, and reasons are values rather than messages.
- NullableColumns.Column.AppendValue: a value of another Go type, which the source refuses, cannot be given to a typed column here.
- NullableColumns.Column.New: name, field type and column options other than the sparse mode.
- Nullable JSON, geometry and vector columns, whose own `AppendValue` does not keep the flags; that a nil breaks a JSON column and is refused by a vector column is modelled.
- RowColumns.AnyToColumns: columns are logical cells, whose encoding StoredColumns.BuiltIs gives; rows arrive as maps, and what parsing a schema out of the first row gives is a parameter, so reflection and JSON failures are not modelled. Of a row that both misfits and has a field of an unknown type, either outcome is allowed, since Go leaves the order of its fields open.
- InsertRequests.ProcessInsertColumns: columns are values, and how the caller's own columns are left is the function Sent; the encoding of merged records as JSON bytes is not modelled, nor are nullable vector columns.
- RowFillings.FillData: does not model the panic on a value whose Go type differs from the receiver's field, and covers the columns of stored fields, not a dynamic one.
- TagSettings.ParseTagSetting: separators are one character, the only ones the source uses; upper-casing and white space are arbitrary tables.
- TagSettings.RoundTripIff: takes the separator and the backslash for characters that are not blank and that upper-casing neither changes nor yields, as ';' and '\' are.
- VectorCodec.DecodeVectors: capacities do not exceed lengths, so a slice past the end panics; the types that only differ by a Go type share one method; a field whose stored kind does not match its type, and a missing binary buffer, are not modelled.
- Scalar, array and Timestamptz columns on the wire, whose encoders only hand the list over.
- SparseEmbeddings.SliceSparseEmbedding.Serialize: appends the words instead of filling a buffer of the final length.
- SearchResults.HandleSearchResult: requires the flat lists to hold the hits the topks announce, since the source slices them unchecked; which columns to make for output fields, wildcards and dynamic fields is left out, and whether a query's parse is free. A JSON document is the map of the paths that exist in it, and the flags of nullable columns are not part of a row.
- SearchResults.Slice: start beyond the row count, on which the source panics, is excluded.
- SearchResults.SearchIterator.Fetch: search parameters, tokens and the server's bounds are not modelled, only the answer that comes back.
- DeleteFilters.EntityFilter.Filtered: does not model how a timestamp is split into time and counter, which is an arbitrary function to milliseconds.
- SchemaRetries.RetryIfSchemaError: one caller at a time, so shared fetches and stale concurrent inserts are not modelled; a failing fetch is never itself a schema mismatch; waiting, deadlines and cancellation are left out.
- AnalyzeMetas.AnalyzeMeta.AddAnalyzeTask: the caller's object becomes the table's object, and what the caller does to it afterwards is not modelled.
- AnalyzeMetas.AnalyzeMeta.GetTask: `GetAllTasks`, which hands out the live map, and the cleaning of tasks are left out; catalog calls that fail are taken to change nothing.
- StateChannels.StateChannel.TransitionState: watch information other than the operation ID, cloning and reassignment to a node are left out.
- RPC, protobuf, option builders, role and database clients: plumbing without invariants.
