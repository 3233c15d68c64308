# Verified models of the data-movement, streaming, admission and store code

This project models the algorithmic core of the repository in Dafny and proves what that core
is relied on for. `dafny verify dfyconfig.toml` checks all of it.

Code that updates variables in a loop is a method with invariants, proved equal to a function
of its inputs; an object that updates its fields is a class. The laws are lemmas about those
functions. Concurrent code (the row queue, the gates, the transaction handle) is a state machine
of atomic steps, one step for each stretch between two awaits, and its laws hold for every run.

| module | what it models |
|---|---|
| `JsText`, `Movement` | JavaScript's split, join, trim and number printing; cells, rows, batches, streams |
| `Csv`, `JsonFile` | the WebHDFS adapter's CSV and JSON printer and its CSV parser (RFC 4180 section 2) |
| `SqlText` | INSERT text, against a scanner for delimited identifiers and literals (ISO/IEC 9075-2 sections 5.2 and 5.3) |
| `Transform`, `TransformLaws` | the Bridge engine's row transform, its progress counter, and the preview |
| `RowQueue` | the push-to-pull queue of the SQL Server reader |
| `WriteProtocol` | the three `writePowered` functions, against a driver whose every call may fail |
| `TableServer`, `BridgeMove` | what the calls do to the table, and `moveData` end to end |
| `SseStream` | the chat-completion event stream: line splitter and tool-call assembler (WHATWG HTML sections 9.2.5 and 9.2.6) |
| `Admission` | the LLM throttle and the connection budget |
| `PlanStore` | the plan store: memory over files over a durable sink, with a clock and restarts |
| `Migrations` | the resumable migration runner |
| `WarehouseTx` | the finish-once transaction handle |
| `Fnv` | the 32-bit FNV-1a checksum over JavaScript's signed operators (draft-eastlake-fnv section 2) |
| `Truncation` | the two history-dropping passes over a conversation |
| `PublishedOutputs` | the normaliser of a step's published output keys |
| `TableExport`, `WrittenTables` | markdown tables of an answer, the choice of tables, their CSV form, and how much of a written table comes back |

## What the code does not do

Each of these is a lemma about the code as it is, with the exact condition where there is one.

- A one-column table loses its rows with an empty cell, in `parseCsv` and in the last line of an
  exported table (`Csv.RoundTripExactly`, `TableExport.ExportParsesBack`).
- A column that is missing from the first row of a batch is not written
  (`BridgeMove.LateColumnIsLost`). A move stores exactly its rows iff no batch has a row with other
  columns than its first one (`BridgeMove.KeepsAllIff`); a projection ensures that
  (`BridgeMove.ProjectionIsUniform`).
- A move reported failed may have replaced the table, if its COMMIT failed after it had worked
  (`TableServer.FailedCommitMayHaveWorked`); in every other failure the table is unchanged.
- A table row of nothing but dashes, colons and white space is taken for a rule and dropped, and
  so is such a header, in whose place the first row comes (`WrittenTables.WrittenTableExtractedIff`,
  `WrittenTables.FirstRowIsPromoted`).
- The throttle accepts an explicit limit below one and then serves nobody
  (`Admission.ServesIffLimitPositive`).
- When a caller raises a gate's limit it overtakes the queue (`Admission.OvertakesIffLimitRaised`).
- The two budget classes together exceed the pool by one connection when the pool is no larger
  than the headroom (`Admission.LimitsFitThePool`, `Admission.PoolNeverOversubscribed`).
- A plan whose file could not be written is in memory but not in the sink, and the previous plan
  is back after a restart (`PlanStore.FailedWriteIsForgotten`); `PlanStore.SurvivesRestartIff` says
  exactly when a save counts for good.
- A deleted plan whose file could not be unlinked is still served (`PlanStore.WithoutSinkLoadsFreshPlans`).
- Pruning goes by file time, which spares every servable plan iff the plan was not created after
  its file was written (`PlanStore.PruningIsSafeIff`).
- A migration stopped between its body and its record runs its body again
  (`Migrations.RunsAgainIffUnrecorded`, `Migrations.BodyMayRunTwice`).
- `truncateLegacy` returns a conversation that is still over the budget when every shortened
  candidate fits, and repeats a message if the count is odd (`Truncation.OffTheEndDropsNothing`,
  `Truncation.FitsExactlyWhen`).
- A rollback after a commit that failed sends nothing (`WarehouseTx.FirstCallDecides`).

## Model

| member | source | states |
|---|---|---|
| `Csv.SerializeRows` | packages/connectors/src/adapters/webhdfs.ts:149-175 | the written text is a function of the flattened rows alone: every batching, empty batches included, gives the same CSV or JSON file |
| `Csv.ParseRecords` | packages/connectors/src/adapters/webhdfs.ts:197-248 | the character loop computes the recursive parser that the round trips are proved of |
| `Csv.ParseCsv` | packages/connectors/src/adapters/webhdfs.ts:189-261 | header to keys, missing cells empty, surplus cells dropped, blank lines skipped; ties the loop to `Table(Parse(text))` |
| `Csv.FieldRun` | packages/connectors/src/adapters/webhdfs.ts:181-186 | a printed field, before a comma, a newline or the end, is read back as its cell, whatever characters it holds |
| `Csv.PlainCellsAreNotQuoted` | packages/connectors/src/adapters/webhdfs.ts:181-186 | a cell is printed as it is iff it has no quote, comma or line end |
| `Csv.LineRun` | packages/connectors/src/adapters/webhdfs.ts:177-179 | the same for a printed line of any number of fields |
| `Csv.ParseUndoesLines` | packages/connectors/src/adapters/webhdfs.ts:189-261 | parsing undoes printing on every list of nonempty records |
| `Csv.AnyLineEnding` | packages/connectors/src/adapters/webhdfs.ts:214-248 | a file parses to its records with LF, CRLF or CR line endings, and with its last line terminated or not, a last record of one empty cell excepted |
| `Csv.PrintingNormalises` | packages/connectors/src/adapters/webhdfs.ts:189-248 | any text at all, well formed or not, parses to records whose printed form parses to the same records |
| `Csv.RowOfRecord` | packages/connectors/src/adapters/webhdfs.ts:254-257 | a row has exactly the header's columns: each with its cell, or an empty one where the record is short |
| `Csv.BlankLineIsSkipped` | packages/connectors/src/adapters/webhdfs.ts:253-253 | a record of one empty cell is skipped wherever it stands and whatever the header is |
| `Csv.OtherCells` | packages/connectors/src/adapters/webhdfs.ts:182-183 | null and undefined print as nothing, booleans by name, integers in digits that read back |
| `Csv.RoundTrip` | packages/connectors/src/adapters/webhdfs.ts:149-261 | for all rows, whatever their cells and keys, parsing the serialized text gives every row as text, less exactly the one-column rows with an empty cell |
| `Csv.RoundTripExactly` | packages/connectors/src/adapters/webhdfs.ts:253-253 | text rows over one column set come back unchanged iff there are two columns or more, or one and no empty cell |
| `JsonFile.RoundTrip` | packages/connectors/src/adapters/webhdfs.ts:166-174 | the JSON file written for any rows is read back as the rows, for any way of printing rows that can be read back before a comma or a bracket |
| `SqlText.IdentReads` | packages/sql-kit/src/idents.ts:9-21 | a quoted identifier, in any of the places where one stands, scans back to the part it was made from, for every string |
| `SqlText.TableReads` | packages/sql-kit/src/idents.ts:14-26 | a quoted table name scans back to the name split at its dots |
| `SqlText.LiteralReads` | packages/sql-kit/src/literals.ts:9-37 | a null, boolean, integer or string literal scans back to the stored value |
| `SqlText.LiteralTexts` | packages/sql-kit/src/literals.ts:9-15 | the literals of null and booleans, and what is stored of every value |
| `SqlText.MssqlStatementDenotes` | packages/connectors/src/adapters/drivers.ts:147-159 | the whole SQL Server statement, with or without IDENTITY_INSERT around it, scans to the table name, the columns and the rows-by-columns matrix of the batch |
| `SqlText.MssqlWords` | packages/connectors/src/adapters/drivers.ts:151-156 | a whole plain statement, word for word |
| `SqlText.IdentityWords` | packages/connectors/src/adapters/drivers.ts:157-158 | the words around a statement that gives identity values |
| `SqlText.CellOf` | packages/connectors/src/adapters/drivers.ts:239-241 | placeholder numbers `i*k+c+1` and cells correspond one to one |
| `SqlText.BoundCell` | packages/connectors/src/adapters/drivers.ts:239-242 | the value bound to a placeholder is its row's and column's cell |
| `SqlText.BindRestores` | packages/connectors/src/adapters/drivers.ts:239-242 | the placeholders with the bound values stand for the matrix of cells |
| `SqlText.PlaceholderStatementDenotes` | packages/connectors/src/adapters/drivers.ts:235-246 | the Postgres statement (and Oracle's, which differs in the placeholder mark) with its bound values scans to the table name, the columns and the batch's matrix |
| `SqlText.PlaceholderWords` | packages/connectors/src/adapters/drivers.ts:239-241 | the tuples of two rows and two columns: placeholders one to four, row by row |
| `SqlText.PlaceholderInsertWords` | packages/connectors/src/adapters/drivers.ts:243-245 | the words around the tuples, with and without overriding identity values |
| `Transform.MapRow` | packages/connectors/src/engine.ts:86-100 | the loops over columns, derived columns and defaults compute the row's mapping |
| `Transform.TransformBatch` | packages/connectors/src/engine.ts:84-104 | the loop over a batch maps every row and keeps those that pass the filters; `TransformLaws` says what that makes of a row |
| `Transform.ApplyTransform` | packages/connectors/src/engine.ts:66-107 | the stream handed on: transformed batches, empty ones left out, up to the source's failure or the abort; `TransformLaws` says what rows it holds |
| `Transform.BatchesDoNotMatter` | packages/connectors/src/engine.ts:66-107 | the flattened output is the per-row transform of the flattened input for every batching, and no batch is empty |
| `Transform.SameRowsSameOutput` | packages/connectors/src/engine.ts:66-107 | two sources with the same rows and the same end hand over the same rows and end, with or without work to do |
| `Transform.ProjectionUnifiesColumns` | packages/connectors/src/engine.ts:86-100 | with a projection all rows that come out share one column set, whatever the source rows are |
| `TransformLaws.FilterMeaning` | packages/connectors/src/engine.ts:173-196 | one filter hands on exactly the rows whose cell meets its condition (equal, different, among, filled, not filled, in order), in order and unchanged |
| `TransformLaws.FiltersCompose` | packages/connectors/src/engine.ts:101-103 | one filter more keeps, of the rows so far, those that it keeps by itself |
| `TransformLaws.RowByRow` | packages/connectors/src/engine.ts:85-100 | without filters every row comes out in its place, whatever the other rows are |
| `TransformLaws.ColumnsMeaning` | packages/connectors/src/engine.ts:86-96 | a projected row has exactly the projected columns: each the source cell, its default where that is not filled, or a constant; cast if a cast is given, null and undefined casting to null |
| `TransformLaws.DeriveMeaning` | packages/connectors/src/engine.ts:97-97 | one derived column more: its template filled from the source row and, before it, what is mapped so far |
| `TransformLaws.DefaultMeaning` | packages/connectors/src/engine.ts:98-100 | one default more: it fills its column iff that is not filled, and changes nothing else |
| `TransformLaws.ShortCutIsSound` | packages/connectors/src/engine.ts:55-77 | passing batches through when there is no work hands on the transformed rows all the same, for every transform |
| `TransformLaws.AbortCutsOff` | packages/connectors/src/engine.ts:220-225 | an abort found at batch n hands on the transformed rows of the batches before it, then fails; one found later changes nothing |
| `Transform.WithMoveProgress` | packages/connectors/src/engine.ts:231-241 | batches pass unchanged, and each report is the number of rows so far |
| `Transform.PreviewMove` | packages/connectors/src/registry.ts:147-174 | the preview is exactly the first `limit` rows of the stream a move hands its writer, truncated iff there are more; the stream's failure shows iff it is reached |
| `TransformLaws.PreviewIsFaithful` | packages/connectors/src/registry.ts:148-170 | a preview is a prefix of as many rows as it may show, truncated iff it is not all |
| `RowQueue.PushKeepsRows` | packages/connectors/src/adapters/drivers.ts:62-65 | the row handler appends its row to the queued rows |
| `RowQueue.InvStep` | packages/connectors/src/adapters/drivers.ts:51-100 | every step of a handler or of the generator keeps the invariant |
| `RowQueue.InvRun` | packages/connectors/src/adapters/drivers.ts:51-100 | in every interleaving the yielded and queued batches hold the rows received, in order; all queued batches but the last are full; a waiter means an empty queue and no finish |
| `RowQueue.QueuedBatchesAreFull` | packages/connectors/src/adapters/drivers.ts:62-65 | in every run each queued batch but the last has exactly the batch size, and the last has less |
| `RowQueue.NoLostWakeUp` | packages/connectors/src/adapters/drivers.ts:58-88 | whenever a batch is queued or the source is finished, a generator that is not over can run |
| `RowQueue.EventsAreKnown` | packages/connectors/src/adapters/drivers.ts:62-88 | after any events the state knows exactly the rows that came, whether the end was reported, and the last error |
| `RowQueue.EndsAfterAllRows` | packages/connectors/src/adapters/drivers.ts:90-99 | a generator that ends or throws has yielded all received rows, and throws the error its state knows |
| `RowQueue.EndingIsHonest` | packages/connectors/src/adapters/drivers.ts:80-99 | over whole runs: a generator that ended or threw did so after the end was reported and all rows that had come were yielded; it threw the last error that had come, and ended iff none had |
| `RowQueue.Drains` | packages/connectors/src/adapters/drivers.ts:90-99 | once the source is finished, one turn per queued batch and one more yield everything and end |
| `RowQueue.RowStream.OnRow` | packages/connectors/src/adapters/drivers.ts:62-71 | the handler is the row step of the protocol |
| `RowQueue.RowStream.OnDone` | packages/connectors/src/adapters/drivers.ts:72-79 | the handler is the done step |
| `RowQueue.RowStream.OnError` | packages/connectors/src/adapters/drivers.ts:80-88 | the handler is the error step |
| `RowQueue.RowStream.Next` | packages/connectors/src/adapters/drivers.ts:90-99 | a turn of the generator yields the oldest batch, ends, throws the last error, or waits, as the protocol says |
| `WriteProtocol.InsertBatches` | packages/connectors/src/adapters/drivers.ts:139-165 | one statement per batch that is not empty, in order; completed, with all rows counted, iff the stream and every call worked; no COMMIT is sent |
| `WriteProtocol.FinishChecked` | packages/connectors/src/adapters/mssql.ts:150-169 | after the inserts: check constraints again, then commit, or roll back on a failed summary; it falls short of completing only if a call or the stream failed |
| `WriteProtocol.CatchChecked` | packages/connectors/src/adapters/mssql.ts:170-182 | the failed path tries to check constraints again and always tries a rollback |
| `WriteProtocol.WritePoweredChecked` | packages/connectors/src/adapters/mssql.ts:131-183 | for every pattern of failing calls it returns; completed iff the stream and every call worked, and then the whole plan ran; constraints are relaxed first and the table is emptied next if that was asked for, the COMMIT comes right after the recheck and never for a stream that failed; else a rollback was tried last, relaxed constraints were at least tried to be checked again, and the summary tells the rows, the failing row and the message. The Oracle adapter has the same body |
| `WriteProtocol.AskedForFirst` | packages/connectors/src/adapters/mssql.ts:143-149 | read off the contract: a relaxing call comes first iff asked for, and nothing but a rollback follows if it failed; a working TRUNCATE comes before every row and the COMMIT iff replacing |
| `WriteProtocol.WritePoweredPostgres` | packages/connectors/src/adapters/postgres.ts:110-147 | the same without a recheck; the client is released at most once, and never iff the last call, a ROLLBACK, failed |
| `TableServer.InsertsAddBatches` | packages/connectors/src/adapters/drivers.ts:148-163 | the statements of a stream add its batches, in order, to whatever the transaction held |
| `TableServer.WorkingAtCommit` | packages/connectors/src/adapters/mssql.ts:142-168 | when the COMMIT is due the transaction sees exactly the target table |
| `TableServer.BrokenShowsNothing` | packages/connectors/src/adapters/mssql.ts:170-182 | wherever a run breaks, nothing shows outside, unless the COMMIT failed after it had worked |
| `TableServer.AllOrNothing` | packages/connectors/src/adapters/mssql.ts:131-183 | completed leaves exactly the target; failed leaves the table as it was, or the whole target if the stream was whole and the COMMIT was what failed; in SQL Server constraints that were checked are checked again, however the write ended |
| `TableServer.ConstraintsAreRestored` | packages/connectors/src/adapters/mssql.ts:125-130 | the promise to restore always: after any run of the protocol, completed or broken anywhere, what others see is checked if it was before |
| `TableServer.FailedCommitMayHaveWorked` | packages/connectors/src/adapters/mssql.ts:168-182 | that exception is real: a run that meets the contract, reported failed, whose COMMIT had taken effect and changed the table |
| `BridgeMove.InsertAddsBatch` | packages/connectors/src/adapters/drivers.ts:150-161 | a server that reads the statement's text and bound values adds exactly the batch's rows |
| `BridgeMove.StatementsAreFaithful` | packages/connectors/src/adapters/drivers.ts:139-165 | that holds for every batch, table and option, in all three dialects |
| `BridgeMove.IdentityIsAskedFor` | packages/connectors/src/adapters/mssql.ts:139-141 | identity values are asked for exactly when the write allows them, in every dialect |
| `BridgeMove.KeepsAllIff` | packages/connectors/src/adapters/drivers.ts:148-153 | batches are stored as exactly the rows they hold, in order, iff within each batch every row has the columns of its first row; different batches may differ |
| `BridgeMove.NoCellLostIff` | packages/connectors/src/adapters/drivers.ts:150-153 | counting an absent cell as null, a batch loses no cell iff every cell that is not null stands in a column of its first row |
| `BridgeMove.SameColumnsKeepAll` | packages/connectors/src/adapters/drivers.ts:150-153 | when the rows share one column set the batches add the rows themselves, with every cell, however batched |
| `BridgeMove.MoveData` | packages/connectors/src/engine.ts:248-271 | the writer's summary, about the transformed stream, is the result, and tells its failure truly; the engine throws iff aborted, an adapter fails to open or close, or the transaction does not open |
| `BridgeMove.ReplaceIsAllOrNothing` | packages/connectors/src/engine.ts:248-271 | replace, end to end: completed means as many rows as were transformed, and exactly those rows, in order, iff every batch is uniform; failed, for any failing call, source read or abort, means the table is unchanged, or as after a completed move if the stream was whole and the COMMIT failed |
| `BridgeMove.ProjectionSharesColumns` | packages/connectors/src/engine.ts:86-100 | a projection gives the moved rows one shared column set, for every source |
| `BridgeMove.ProjectionIsUniform` | packages/connectors/src/engine.ts:86-100 | so with a projection every batch is uniform, and nothing is lost |
| `BridgeMove.LateColumnIsLost` | packages/connectors/src/adapters/drivers.ts:150-153 | a concrete batch that falls outside the condition: its late column is not written |
| `SseStream.Consume` | packages/agent/src/llm/openai-compat.ts:53-107 | for every way of cutting the text into reads, the outcome and the callbacks are the fold of the line handler over the complete lines of the whole text, a throwing line ending it |
| `SseStream.HandleLines` | packages/agent/src/llm/openai-compat.ts:59-98 | the loop over the lines of one read is the fold of the line handler, up to a line that throws |
| `SseStream.DataLine` | packages/agent/src/llm/openai-compat.ts:60-97 | a line that carries a chunk appends its content, adds its fragments, sets a nonempty finish reason and a usage whose total is not zero, and calls back: field by field |
| `SseStream.IdleLine` | packages/agent/src/llm/openai-compat.ts:60-68 | a line without the prefix, the last one of a stream and one that is not JSON change nothing |
| `SseStream.NullsThrow` | packages/agent/src/llm/openai-compat.ts:69-84 | a null payload throws, and so does a null fragment, after the fragments before it |
| `SseStream.NewlineDeliversLastLine` | packages/agent/src/llm/openai-compat.ts:56-58 | an unterminated last line is all that is ignored: the complete lines and it make up the text, and a newline delivers it |
| `SseStream.LinesAppend` | packages/agent/src/llm/openai-compat.ts:56-58 | buffering: the lines of a longer text are those so far and those of the remainder with the new text |
| `SseStream.ContentGathered` | packages/agent/src/llm/openai-compat.ts:73-76 | the content is the concatenation of all content deltas |
| `SseStream.FragmentsGathered` | packages/agent/src/llm/openai-compat.ts:77-91 | the tool-call map is what adding all fragments of all lines, in stream order, makes |
| `SseStream.CallsAreConcatenations` | packages/agent/src/llm/openai-compat.ts:82-90 | fragments that are added to an empty map make, per index, the concatenations of its names and arguments and its last id, in the order of first fragments |
| `SseStream.StreamReturnsItsParts` | packages/agent/src/llm/openai-compat.ts:100-107 | what a stream that does not throw returns: all content deltas joined, and exactly those calls, made of the fragments of all its lines |
| `SseStream.StreamOfChunks` | packages/agent/src/llm/openai-compat.ts:53-107 | a whole stream in terms of what its lines carry: all content joined, the calls made of all fragments, the last nonempty finish reason, and the last usage with a nonzero total |
| `SseStream.OpenCallsInterleave` | packages/agent/src/llm/openai-compat.ts:82-90 | adding two fragments of different calls already seen in either order gives the same map |
| `SseStream.SwapInStream` | packages/agent/src/llm/openai-compat.ts:82-91 | so swapping them anywhere in a stream, whatever follows, changes neither the calls nor whether it throws |
| `SseStream.CallbacksInOrder` | packages/agent/src/llm/openai-compat.ts:73-81 | the tokens spell a prefix of the content, all of it until a tool call; the tool-call callback comes once, last |
| `Admission.InvRun` | packages/server/src/ports/connection-budget.ts:32-75 | over all runs with limits changing freely: `active` counts the holders, never exceeds the largest limit set, and a queue always has a holder to wake it |
| `Admission.NoRaiseAtLimit` | packages/server/src/ports/connection-budget.ts:58-62 | no step raises `active` at or above the limit then in force |
| `Admission.FairRun` | packages/server/src/ports/llm-throttle.ts:54-71 | under a fixed limit `active` stays within it, a queue forms only at the limit, and those granted, then those waiting, are those who arrived, in order |
| `Admission.GrantedAtItsRelease` | packages/server/src/ports/connection-budget.ts:58-75 | a waiter behind k others has its slot iff k+1 releases have happened since, whatever the limits and newcomers |
| `Admission.ServesIffLimitPositive` | packages/server/src/ports/llm-throttle.ts:54-71 | the throttle can ever serve anyone iff its limit is at least one |
| `Admission.OvertakesIffLimitRaised` | packages/server/src/ports/connection-budget.ts:38-47 | a newcomer overtakes waiters iff the limit it brings exceeds the number of holders |
| `Admission.LlmThrottle.Acquire` | packages/server/src/ports/llm-throttle.ts:54-65 | is the acquire step; granted at once iff below the limit |
| `Admission.LlmThrottle.Release` | packages/server/src/ports/llm-throttle.ts:67-71 | is the release step; the slot goes straight to the first waiter |
| `Admission.MemoryConnectionBudget.Enter` | packages/server/src/ports/connection-budget.ts:32-69 | sets the limit of the caller's own gate and acquires there in one step, all other gates unchanged |
| `Admission.MemoryConnectionBudget.Leave` | packages/server/src/ports/connection-budget.ts:71-75 | is the release step of that gate alone |
| `Admission.GateKeysDiffer` | packages/server/src/ports/connection-budget.ts:25-27 | two connectors or classes never share a gate |
| `Admission.DefaultLimits` | packages/server/src/ports/connection-budget.ts:92-104 | three slots are kept for the agents when the settings are absent, unparsable or zero, and the given numbers otherwise |
| `Admission.LimitsFitThePool` | packages/server/src/ports/connection-budget.ts:92-104 | the classes' limits fit the pool iff a condition on the settings; without explicit slots they sum to the pool exactly, or to one more if it is no larger than the headroom |
| `Admission.PoolNeverOversubscribed` | packages/server/src/ports/connection-budget.ts:1-5 | the two classes together never hold more than the pool, over any two runs, iff that condition holds |
| `Admission.LimitIsReached` | packages/server/src/ports/connection-budget.ts:58-62 | the bound is tight: every number of holders up to the limit is reached by a legal run |
| `PlanStore.WithSinkLoadsLastSaved` | packages/sync/src/runtime/plan-store.ts:62-109 | from any store with a sink: a plan whose save reached its file and the sink is what a load returns, after any events but a save under its id, every other call failing freely |
| `PlanStore.UnsavedIsNotFound` | packages/sync/src/runtime/plan-store.ts:78-109 | an id that no tier holds and that is not saved is never found, with or without a sink |
| `PlanStore.ServedForeverIff` | packages/sync/src/runtime/plan-store.ts:78-109 | right after a restart a plan is served at every later time iff the sink holds it and no file still fresh holds another |
| `PlanStore.SurvivesRestartIff` | packages/sync/src/runtime/plan-store.ts:62-76 | when a save counts, from any store with a sink: after it and a restart the plan is served at every later time iff the save reached the file and the sink, or the sink held the plan already and no older file stands in its way |
| `PlanStore.WithoutSinkLoadsFreshPlans` | packages/sync/src/runtime/plan-store.ts:62-144 | with files alone: from any store, after a save of a plan not created later, and any events but a save under its id, with reads, unlinks and other saves failing freely, a load returns the plan iff it is at most twenty-four hours old and no delete that unlinked its file came since |
| `PlanStore.MemoryAlone` | packages/sync/src/runtime/plan-store.ts:65-82 | with neither files nor a sink a plan is found in its process until it is too old or deleted |
| `PlanStore.NothingInvented` | packages/sync/src/runtime/plan-store.ts:78-109 | whatever fails, a load returns only a plan saved under that id |
| `PlanStore.FailedWriteIsForgotten` | packages/sync/src/runtime/plan-store.ts:65-75 | a concrete run outside the condition: a failed file write brings the older plan back |
| `PlanStore.PruningIsSafeIff` | packages/sync/src/runtime/plan-store.ts:129-144 | in any store, pruning at any time removes no file that a load would then still serve, iff its plan was not created after it was written |
| `PlanStore.PlanHost.SavePlan` | packages/sync/src/runtime/plan-store.ts:62-76 | is the save step; throws iff the file cannot be written |
| `PlanStore.PlanHost.LoadPlan` | packages/sync/src/runtime/plan-store.ts:79-109 | is the load step through memory, file and sink, with what each hit caches and an expired file unlinks |
| `PlanStore.PlanHost.DeletePlan` | packages/sync/src/runtime/plan-store.ts:117-127 | is the delete step: memory and file, never the sink |
| `PlanStore.PlanHost.PruneExpired` | packages/sync/src/runtime/plan-store.ts:133-144 | in whatever order the listing is walked, exactly the old files that can be unlinked go |
| `PlanStore.PlanHost.PlanTooOldToExecute` | packages/sync/src/runtime/plan-store.ts:112-114 | a plan that may be executed has not expired |
| `Migrations.MigrationTable.ApplyMultiDialectPending` | packages/sql-kit/src/migrations.ts:68-87 | the loop, stopped at any moment, also between the effect of `record` and its return, is the recursive runner over the sorted steps |
| `Migrations.SortIsAnOrdering` | packages/sql-kit/src/migrations.ts:74-74 | the steps are run in version order, each of them once |
| `Migrations.AppliedIsAPrefix` | packages/sql-kit/src/migrations.ts:75-86 | after any run, however it ends, the applied set is the initial set and the versions of a prefix; nothing after an unapplied step without a body |
| `Migrations.ResumeReachesTheSame` | packages/sql-kit/src/migrations.ts:75-86 | resuming a run stopped anywhere reaches the same set and the same ending as one that was not stopped |
| `Migrations.InterruptionsDoNotMatter` | packages/sql-kit/src/migrations.ts:68-87 | the same for any series of interrupted runs |
| `Migrations.CompletedMeansNothingLeft` | packages/sql-kit/src/migrations.ts:76-76 | after a completed run a further one executes no body |
| `Migrations.BodiesRunOnce` | packages/sql-kit/src/migrations.ts:75-86 | within a run no body runs twice, and none that was applied |
| `Migrations.BodiesAreRecorded` | packages/sql-kit/src/migrations.ts:84-85 | every body that ran is recorded, except the last one of a run stopped before its record took effect |
| `Migrations.RunsAgainIffUnrecorded` | packages/sql-kit/src/migrations.ts:76-85 | a body that ran runs again in the next run that is not stopped iff the first run's applied set does not hold all the bodies that it ran |
| `Migrations.BodyMayRunTwice` | packages/sql-kit/src/migrations.ts:84-85 | a concrete run in which it happens |
| `WarehouseTx.FinishesOnce` | packages/sync/src/runtime/warehouse-tx.ts:23-83 | over all interleavings of commits, rollbacks and replies at most one statement is sent, and a Postgres client is released exactly once, when it is answered |
| `WarehouseTx.FirstCallDecides` | packages/sync/src/runtime/warehouse-tx.ts:33-46 | the only statement sent is that of the first call, whatever follows and however the database answers |
| `WarehouseTx.Handle.Start` | packages/sync/src/runtime/warehouse-tx.ts:64-66 | the synchronous part of `commit` and `rollback` is the call step |
| `WarehouseTx.Handle.End` | packages/sync/src/runtime/warehouse-tx.ts:64-83 | the rest of it: a failed commit throws, a failed rollback does not, the client goes back either way |
| `Fnv.Fnv1a32` | packages/agent/src/tools/_tool-cache.ts:17-24 | the loop over signed 32-bit operators computes FNV-1a over the code units, printed in hexadecimal |
| `Fnv.KnownChecksums` | packages/agent/src/tools/_tool-cache.ts:17-24 | two checksums of the FNV reference list: of no unit, and of the letter a |
| `Fnv.ShiftAddIsMultiply` | packages/agent/src/tools/_tool-cache.ts:21-21 | one round of shifts and adds, with their wrap-around, multiplies by 16777619 modulo 2^32 |
| `Fnv.JavaScriptStep` | packages/agent/src/tools/_tool-cache.ts:20-21 | one round of the loop is one FNV-1a step, for negative intermediate values too |
| `Fnv.StepIsABijection` | packages/agent/src/tools/_tool-cache.ts:20-21 | each step is a bijection on 32-bit states, for every unit |
| `Fnv.HashSeparatesStates` | packages/agent/src/tools/_tool-cache.ts:19-22 | so is a whole run of steps |
| `Fnv.ChecksumStandsForHash` | packages/agent/src/tools/_tool-cache.ts:23-23 | the padded text has eight digits and reads back as the hash |
| `Fnv.OneUnitChangesTheChecksum` | packages/agent/src/tools/_tool-cache.ts:17-24 | strings that differ in exactly one unit never share a checksum |
| `Truncation.TruncateLegacy` | packages/agent/src/memory/context-truncation.ts:245-261 | it terminates and returns the candidate for the tail at which the loop stops: stepped back from the first candidate over the budget, or off the end |
| `Truncation.StopsOnce` | packages/agent/src/memory/context-truncation.ts:247-257 | that tail and way of stopping are unique |
| `Truncation.BreakDropsTheMiddle` | packages/agent/src/memory/context-truncation.ts:252-260 | on a break: two messages, one summary of those dropped, and an unmodified disjoint suffix of four or more; it fits iff the first candidate did |
| `Truncation.OffTheEndDropsNothing` | packages/agent/src/memory/context-truncation.ts:256-260 | off the end nothing is dropped: the note is put in, message 1 is repeated if the count is odd, and up to four messages are all repeated |
| `Truncation.FitsExactlyWhen` | packages/agent/src/memory/context-truncation.ts:245-261 | a conversation over the budget comes back under it iff the first candidate fits and a later one does not |
| `Truncation.HistoryStartsLate` | packages/agent/src/memory/context-truncation.ts:114-128 | what is never dropped: exactly the preamble, or all up to the first user message |
| `Truncation.OpeningSurvives` | packages/agent/src/memory/context-truncation.ts:114-128 | system messages and the prompt's own sections at the start survive whole, in place |
| `Truncation.FirstUserMessageSurvives` | packages/agent/src/memory/context-truncation.ts:125-128 | so does the first message of the user, with all before it |
| `Truncation.OnlyOldHistoryGoes` | packages/agent/src/memory/context-truncation.ts:113-146 | something goes iff there are more than six messages of history; then one summary replaces the oldest and six messages, or half, stay untouched; the conversation never grows |
| `PublishedOutputs.SortUniqueSorts` | packages/shared-types/src/step-published-outputs.ts:50-52 | the keys come out strictly sorted, so each once |
| `PublishedOutputs.SortedListingIsUnique` | packages/shared-types/src/step-published-outputs.ts:97-97 | a set of keys has one such listing |
| `PublishedOutputs.SlotsAreInputs` | packages/shared-types/src/step-published-outputs.ts:13-67 | per handler: its input keys are exactly its trimmed nonempty slot names, or the three default ones of a custom handler without slots |
| `PublishedOutputs.IdStyleKeys` | packages/shared-types/src/step-published-outputs.ts:75-79 | a key is of id style iff it is "id" in any case followed by digits only |
| `PublishedOutputs.OutputsAreNormal` | packages/shared-types/src/step-published-outputs.ts:70-98 | sorted, without repetition, every input key in; result columns are declared, pairwise prefix-incomparable, no prefix of an input key, and of id style only beside an id-style input |
| `PublishedOutputs.DeclaredKeysAreCovered` | packages/shared-types/src/step-published-outputs.ts:76-82 | pruning loses nothing else: a declared key is published or a prefix of a published one, unless it has one character or is of id style without an id-style input |
| `PublishedOutputs.ComputeIsIdempotent` | packages/shared-types/src/step-published-outputs.ts:86-98 | recomputing on a computed definition gives the same keys |
| `PublishedOutputs.NormalizingOnceIsEnough` | packages/shared-types/src/derive-step-fields.ts:15-25 | normalising a definition twice is normalising it once, when nothing is published too |
| `PublishedOutputs.NormalizedPublishes` | packages/shared-types/src/derive-step-fields.ts:15-25 | what is saved: the computed keys, or the definition as it was if there are none |
| `TableExport.ExtractAnswerTables` | packages/shared-types/src/table-export.ts:50-108 | the loop terminates, the line index growing at every turn, with the tables of the turn-by-turn reading |
| `TableExport.CollectTable` | packages/shared-types/src/table-export.ts:79-98 | all adjoining rows are taken; a table needs a header and one more line; rows of another width are dropped |
| `TableExport.SkipFence` | packages/shared-types/src/table-export.ts:63-66 | the block ends after its closing fence, or with the answer |
| `TableExport.TablesAreNumberedAndRectangular` | packages/shared-types/src/table-export.ts:84-98 | tables are numbered 0, 1, 2, ... in order and every row is as wide as its header |
| `TableExport.MarkdownIsCoherent` | packages/shared-types/src/table-export.ts:78-80 | a line that starts a table is one of its rows, so the inner loop always moves on |
| `TableExport.SelectTables` | packages/shared-types/src/table-export.ts:182-199 | all the tables asked for, in the order asked, or the first index at fault with its reason |
| `TableExport.ResolveTablesForExport` | packages/shared-types/src/table-export.ts:161-200 | never some of the tables: all of them or one named error, in the order of the checks |
| `TableExport.RowRoundTrip` | packages/shared-types/src/table-export.ts:28-33 | a row of trimmed cells, pipes escaped, is read back cell by cell, backslashes included |
| `TableExport.ParseUnterminated` | packages/shared-types/src/table-export.ts:110-115 | the exported text parses to its records, less a last record that is one empty cell |
| `TableExport.ExportParsesBack` | packages/shared-types/src/table-export.ts:110-115 | it parses to the header and all rows iff there are two columns or more, or one and the last record is not one empty cell; a header without cells never comes back |
| `TableExport.ExportRoundTrip` | packages/shared-types/src/table-export.ts:110-115 | for two or more distinct headers `parseCsv` of the export gives one row per row, in order, with each cell under its header |
| `WrittenTables.RowIsRuleIff` | packages/shared-types/src/table-export.ts:35-37 | a written row is taken for the rule below a header iff its cells hold nothing but white space, dashes and colons |
| `WrittenTables.TurnOnTable` | packages/shared-types/src/table-export.ts:78-98 | at a table the extractor passes all its lines, drops the rule lines, and takes the first line left for the header and those of its width for rows |
| `WrittenTables.WrittenTablesAreExtracted` | packages/shared-types/src/table-export.ts:50-108 | extraction is complete: an answer in which any number of tables were written yields exactly those tables, in order, with their headers and all cells, pipes and backslashes included |
| `WrittenTables.WrittenTableExtractedIff` | packages/shared-types/src/table-export.ts:50-108 | a written table is read back iff it has a row below its header and neither the header nor any row is like a rule |
| `WrittenTables.FirstRowIsPromoted` | packages/shared-types/src/table-export.ts:84-92 | a header that is like a rule, such as one of empty cells, is dropped, and the first row becomes the header |
| `WrittenTables.EmptyHeadersAreLost` | packages/shared-types/src/table-export.ts:84-92 | a concrete table that comes back with its first row for a header |
| `WrittenTables.HeadingIsTheTitle` | packages/shared-types/src/table-export.ts:71-99 | a heading of level one to three, with or without blank lines after it, is the title of the table below it |
| `WrittenTables.DeepHeadingIsText` | packages/shared-types/src/table-export.ts:39-42 | a heading of more than three hashes is no heading |
| `WrittenTables.TextDropsHeading` | packages/shared-types/src/table-export.ts:103-104 | other text between, even a lone pipe, takes the heading away |
| `WrittenTables.FenceAddsNoTable` | packages/shared-types/src/table-export.ts:63-69 | a fenced block adds no table, whatever stands in it, and drops the heading; one never closed takes the rest of the answer |
| `WrittenTables.TitleNamesColumns` | packages/shared-types/src/table-export.ts:44-47 | a made-up title has the table's number from one and the first three columns that have a name |
| `WrittenTables.AnswerToCsvRoundTrip` | packages/shared-types/src/table-export.ts:50-115 | from the answer to the file and back: the written table is extracted, and `parseCsv` of its export gives every cell under its header |

## Left out

- Values other than null, booleans, integers and text: floats, dates, buffers and duck-typed
  objects in `quoteSqlLiteral` and in CSV cells.
- `castValue` of a value that is there, `interpolate` and `compareOrdered` are parameters.
- `JSON.parse`, `JSON.stringify`, UTF-8 decoding, `safeParseArgs`, the token estimate, the
  budget and the summary text are parameters.
- Text is a sequence of Unicode scalar values: lone surrogates, and the difference between
  UTF-16 units and characters in lengths and in `sort()`, are not modelled, except in `Fnv`,
  which works on 16-bit units.
- The key `__proto__` in row objects. The order of `Object.keys` is a parameter: any listing of
  the keys, each once, and two rows with the same keys may be listed in different orders.
- Truncation.FitsExactlyWhen: assumes that putting messages in never lowers the estimate; the
  estimator itself is not part of this model.
- BridgeMove.ReplaceIsAllOrNothing: a COMMIT that fails may or may not have taken effect, so in
  that one case a failed move promises either the old table or the whole new one, because a client
  cannot know which.
- TableServer.AllOrNothing: not for Oracle, whose TRUNCATE commits implicitly; of Oracle only the
  calls and the restoring of constraints are modelled.
- RowQueue.RowStream.Next: a batch whose consumer stops early is not tracked further.
- BridgeMove.MoveData: the clean-up of an adapter whose partner failed to open, and the reason
  carried by an abort signal, are not modelled; a close that fails makes the result an error.
- Writes outside a transaction (append without constraint or identity options).
- Each dialect's statements for TRUNCATE and for relaxing constraints: they are atomic calls
  that may fail. Network, files, pools and the database are abstract.
- What a slot's holder does, and the order of promise microtasks: a release and the next grant
  are one step.
- Queries on a transaction handle after it finished, and a BEGIN that fails.
- Aliasing of plan objects between the memory cache and its callers, and `validatePlan`.
- `truncateBySection`, `applyPromptBudget` and the section priorities.
- The JSON form and file names of table exports, non-integer table indexes, and the slots'
  sources and literals in handler inputs.
- The markdown rows of `WrittenTables` are printed by the model, with one space around each cell and
  at most a heading and blank lines above the table; of other layouts only the extractor's own
  contract speaks.
- Callbacks that throw, and the opening and closing of the preview's adapter.
