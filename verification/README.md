# Verified model of the ClickHouse extension for DuckDB

The extension lets DuckDB read and write ClickHouse tables: it turns DuckDB plans into ClickHouse SQL, moves columns in
both directions, and keeps a catalog and a pool of connections that many threads share. This project models its hard
parts in Dafny and proves what they promise. `dafny verify dfyconfig.toml` checks all of it.

The model keeps the program's shapes. Recursive case analyses are functions. Loops over mutable buffers are methods with
`while` or `for` loops, proved equal to such a function. Objects that change in place (the transaction manager, a
catalog set, the connection pool, a connection, the insert's and the scan's shared state) are classes. Anything
concurrent is a state machine whose steps are what happens under one lock, so its results are about every interleaving.

## What is modelled

**Translating expressions and casts** (`Values`, `Comparisons`, `Casts`, `Sql`, `Expression`). DuckDB expressions and
the ClickHouse SQL made of them are syntax trees, each with its own three-valued evaluator; the server's
`transform_null_in` is a free boolean. `Keeps` is the promise: where both sides give a value it is the same one, and,
when `total` is asked for, the server gives one wherever DuckDB does. `TranslateExact` proves it for every accepted
expression, on every row on which the two systems make its comparisons alike. Accepted casts give DuckDB's result
although ClickHouse's CAST truncates (`CastExact`).

**UPDATE and DELETE** (`Dml`, `DmlExact`, `DmlComparisons`, `DmlUpdate`, `DmlTable`). Plans of projections, filters and
IN-list MARK joins over a scan have a row-by-row meaning. The collected predicate is TRUE on exactly the rows the plan
outputs (`PredicateExact`), a DELETE leaves exactly the rows it should (`DeleteExact`), the table after an UPDATE is the
one DuckDB's would leave (`UpdateExact`), and an UPDATE that passed its NULL check assigns no NULL to a place that
cannot hold it (`UpdateNullSafe`). What a row needs to be exact is a condition on what is compared (below), and only
where it matters: not if another condition of the same filter keeps the row out. The NULL check needs none.

**Catalog reclamation** (`Transactions`, `CatalogSets`, `Reclamation`). A cleared cache's entries are retired under a
stamp and freed once no transaction can hold them. "Taken out of the cache but not yet stamped" is a state of its own,
and so is a lookup between TryLoadEntries and entry_lock. No entry the manager frees is held, over every interleaving
(`NothingHeldIsReleased`).

**Connection pool** (`Connections`, `PoolQueue`, `PoolRuns`, `PoolSteps`, `PoolSafety`). The three acquire modes, the
thread-local slots, the reaper, resizing, shutdown and probes made with the lock released, as one state machine in which
every connection has one place. The count is exact, its guard never hides an underflow, a pool over its limit has
nothing idle, what an acquire hands out is usable, and a connection that failed is never handed out again.

**Type text** (`LogicalTypes`, `Text`, `DdlTypes`, `TypeParser`, `TypeMapping`, `PrintedText`, `TypeRoundTrip`,
`ReadExpression`). The printer, the parser and the mapping back, on strings: printing then parsing is the identity,
quoting included. The generated read expressions convert every leaf and capture nothing.

**Filter pushdown** (`FilterPushdown`) and **LIMIT / TOP_N pushdown** (`LimitPushdown`). Pushed filters keep the rows
DuckDB's filters keep. Rewritten plans have exactly the results of the originals, results being a relation, so that ties
and unordered scans may come out in any order. ENUM keys are sorted by position on one side and by the server's numbers
on the other, which the stable sort of the type's entries makes the same order.

**Writing and reading columns** (`Columns`, `Appends`, `Writer`, `Reader`, `Insert`, `Scanner`, `StoreAndLoad`). Nested
rows become offsets, null flags and child columns, appended to columns that hold rows already; the blocks an INSERT
sends decode to its rows, and parallel scans put out each row once.

**Conversions** (`Widening`, `Timestamps`) and **UTF-8** (`Utf8`, sections 3 and 4 of RFC 3629).

## Where the code does not meet its promise

Each of these is a lemma with a concrete case, beside one that says exactly when the promise is met.

- Ordered comparisons of UUIDs in an UPDATE or DELETE: ClickHouse orders UUIDs by their second half first. Its design
  document lists this among the accepted divergences (docs/superpowers/specs/2026-09-24-clickhouse-writes-design.md,
  lines 153 to 158); the list of exceptions in the repository's README (lines 109 to 112) does not name it. A comparison
  means the same on both sides if and only if one side is NULL or the halves of the two are ordered the same way
  (`Comparisons.UuidOrder`); `DmlComparisons.UuidFilterExactly` says so of a whole filter, and
  `DmlComparisons.UuidFilterDiffers` gives a row. Filter pushdown compares their text instead, which is right
  (`FilterPushdown.UuidTextOrder`).
- Comparisons of STRUCTs in an UPDATE or DELETE, which neither list names. DuckDB orders nested values position by
  position, NULL last and equal to NULL, and so does ClickHouse for Arrays and Maps; but it compares Tuples field by
  field in three-valued logic, so that `(1, NULL) = (1, NULL)` is NULL (`DmlComparisons.TupleFilterDiffers`). A
  comparison means the same on both sides if and only if it does not come upon a NULL in the fields before it is
  decided, and is not decided by UUIDs ordered differently (`Comparisons.ComparisonExactly`), a BETWEEN if and only if
  what becomes of its two bounds leaves their conjunction as it is (`Expressions.BetweenExactly`). On the rows where all
  comparisons that matter are made alike, every expression, plan and statement is exact;
  `DmlComparisons.ComparisonsExactly` says on which rows a filter that is a list of comparisons is.
- A catalog load that fails between two of its CreateEntry calls (running out of memory, say: the query is read before
  the first) frees the entries it had created. A lookup that had passed TryLoadEntries before the cache was cleared may
  take entry_lock during that load and hold one of them. Nothing held is freed in a run without a lookup beside a load
  (`Reclamation.FailedLoadsFreeNothingHeld`), so in none without a clear (`Reclamation.WithoutClears`); and any lookup
  beside a load that then fails leaves a freed entry held (`Reclamation.LookupBesideLoad`).
- The pool's limit can be exceeded without FORCE when the maximum is raised from zero: acquires that found pooling
  disabled go on as FORCE (`PoolSafety.RaisedFromZero`). `PoolSafety.OverLimitExactly` says which single steps exceed
  the limit, `PoolSafety.WithinExactly` that a run stays within it if and only if it has none of them, and
  `PoolSafety.WithinLimit` that runs of a simple kind do.
- A pushed NOT IN list keeps rows whose value is NULL if every listed value was left out (it becomes `1 = 1`) or if the
  server has `transform_null_in`. `FilterPushdown.ListExactly` is the if-and-only-if for a list,
  `FilterPushdown.PushedExact` and `FilterPushdown.FiltersExact` for any filter and any number of them, and
  `LimitPushdown.ReadExactly` for a scan that a LIMIT was moved into.
- A TIMESTAMP_NS of `infinity`, which CREATE TABLE AS hands to the writer, is stored as an instant in 2262: its ticks
  are in DateTime64's range (`Timestamps.InfinityReadBack`). `Timestamps.InsertExact` says that every other infinite
  timestamp is refused.
- A NULL element of a `Nullable(Tuple(...))` column is stored as a default if that element is not Nullable itself.
  `Columns.LosslessExactly` says which column types give every accepted row back.

## Model

| member | source | states |
|---|---|---|
| TypeRoundTrip.PrintParseRoundTrip | src/clickhouse_ddl_types.cpp:39-149 | For every well-formed type the printer accepts, with any field names and labels: the text parses exactly within the nesting limit of 64, and then maps back to the same type (BLOB as VARCHAR, the naive timestamps as TIMESTAMPTZ), readable, and nullable exactly when a scalar was asked to be |
| TypeRoundTrip.PrintedTextDetermines | src/clickhouse_ddl_types.cpp:39-149 | Types that print alike are read alike: no field name or label can forge another type's text |
| TypeRoundTrip.ParsePrinted | src/clickhouse_types.cpp:115-152 | The parse of a printed type, at any depth, is the tree of that type, and fails exactly past the nesting limit |
| TypeRoundTrip.NodeReadBack | src/clickhouse_types.cpp:315-397 | The tree of a printed type is mapped to the type itself, read back |
| PrintedText.SplitJoin | src/clickhouse_types.cpp:24-64 | Splitting arguments undoes joining them with commas, for any arguments whose brackets and quotes are balanced |
| PrintedText.ReadQuotedName | src/clickhouse_types.cpp:72-94 | Reading a quoted name gives back the name and the rest of the text, whatever characters the name has |
| TypeRoundTrip.ReadAcceptedLabel | src/clickhouse_types.cpp:225-283 | Reading a quoted ENUM label gives back the label and the rest |
| TypeRoundTrip.EnumReadBack | src/clickhouse_types.cpp:225-283 | The entries of a printed ENUM come back in order, with their labels |
| TypeParser.SplitArguments | src/clickhouse_types.cpp:24-64 | The scan with its index and buffers computes the split that the round trip is proved of |
| TypeParser.ScanQuotedName | src/clickhouse_types.cpp:72-94 | The loop over a quoted name gives its unescaped text and where it ends |
| TypeParser.SplitField | src/clickhouse_types.cpp:72-113 | The loops that separate a field's name from its type compute the split that the round trip is proved of |
| TypeMapping.UnwrapLoop | src/clickhouse_types.cpp:162-175 | The pointer loop ends at the type below every wrapper that does not change decoding |
| TypeMapping.ParseEnumEntries | src/clickhouse_types.cpp:225-283 | One entry per literal, or a rejection |
| TypeMapping.ReadEnumEntry | src/clickhouse_types.cpp:225-283 | One entry's label and value, an omitted value being its position |
| TypeMapping.ReadEnumLabel | src/clickhouse_types.cpp:225-283 | The loop over an ENUM label gives its unescaped text and where it ends |
| Text.QuoteText | src/clickhouse_utils.cpp:8-20 | The quoting loop escapes backslashes and the quote, and nothing else |
| Text.ParseNatText | src/clickhouse_types.cpp:177-186 | A printed number is parsed back |
| ReadExpressions.ReadCorrect | src/clickhouse_types.cpp:402-461 | The generated expression computes the leaf conversions applied through every Array, Tuple and Map of the type, for any column name, also where an unchanged subtree is returned as it is |
| ReadExpressions.ReadFree | src/clickhouse_types.cpp:402-461 | Nothing is captured: the generated expression mentions exactly the identifiers of the expression it reads |
| ReadExpressions.ReadTuple | src/clickhouse_types.cpp:414-457 | The loop over a Tuple's elements returns the source itself exactly when no element is converted |
| Casts.CastExact | src/clickhouse_expression.cpp:184-342 | For every pair ClassifyCast accepts: where DuckDB's cast succeeds, the emitted SQL gives its result, rounding, nested lists, structs and maps included |
| Casts.CastToOwnType | src/clickhouse_expression.cpp:184-342 | A cast to the value's own type changes nothing, at any depth |
| Casts.ScalarCastExact | src/clickhouse_expression.cpp:184-326 | The same for every accepted pair of scalar types, where the rounding is chosen |
| Sql.InListMeaning | src/clickhouse_expression.cpp:68-71 | The guarded list is NULL for a NULL and plain membership otherwise, whatever transform_null_in is |
| Sql.UnguardedIn | src/clickhouse_expression.cpp:68-71 | Without the guard, the setting shows exactly on a NULL operand |
| Sql.JunctionKeeps | src/clickhouse_expression.cpp:562-584 | AND and OR keep the promise their operands keep, errors included |
| Sql.FirstBranchKeeps | src/clickhouse_expression.cpp:600-607 | So does CASE, of which only the conditions up to the branch taken are needed |
| Sql.FirstNonNullKeeps | src/clickhouse_expression.cpp:454-503 | So does coalesce |
| Comparisons.UuidOrder | src/clickhouse_expression.cpp:505-517 | An ordered comparison of two UUIDs means the same on both sides if and only if their halves are ordered the same way |
| Comparisons.ComparisonExactly | src/clickhouse_expression.cpp:505-517 | A comparison of any two values, nested or not, gives the same result on both sides if and only if it comes upon no NULL in a Tuple before it is decided, and is not decided by UUIDs ordered differently; otherwise the server's is NULL or the opposite |
| Comparisons.ServerVerdict | src/clickhouse_types.cpp:487-502 | What the field by field comparison of Tuples, at any depth, comes to: the verdict on the first parts that are not one value, and for an equality whether the two surely differ |
| Comparisons.OrdersDiffer | src/clickhouse_types.cpp:487-502 | Two different values, at any depth, are ordered alike by both systems, or, exactly where they first differ in UUIDs whose halves disagree, the other way round |
| Comparisons.PlainComparison | src/clickhouse_types.cpp:487-502 | Comparisons of values that are not nested, equalities of UUIDs included, always agree |
| Expressions.TranslateExact | src/clickhouse_expression.cpp:547-611 | Over every row on which its comparisons are made alike, and either transform_null_in: an accepted expression and its SQL give the same value wherever both give one, and the server gives one wherever DuckDB does if there is no division and no DATE arithmetic |
| Expressions.BetweenExactly | src/clickhouse_expression.cpp:519-525 | BETWEEN on values of any kind gives the same on both sides if and only if its bounds, each as it is, left undecided or reversed, conjoin alike |
| Expressions.OperatorExact | src/clickhouse_expression.cpp:454-503 | The same for NOT, IS NULL, IN, NOT IN and coalesce, given their operands |
| Expressions.TranslateAllExact | src/clickhouse_expression.cpp:547-611 | The same for a list of expressions |
| Expressions.TranslateEach | src/clickhouse_expression.cpp:547-611 | The loop that pushes each translated child stops at the first that has no translation, and otherwise translates all |
| Dml.TraceReference | src/storage/clickhouse_dml.cpp:224-230 | The loop ends where following every pass-through reference ends |
| Dml.AnalyzeTarget | src/storage/clickhouse_dml.cpp:323-418 | The walk down the plan collects the conditions of the scan and of every filter, or rejects the plan |
| Dml.TranslateFilters | src/storage/clickhouse_dml.cpp:400-411 | The loop over the collected filters appends all their conditions in order |
| DmlExact.ResolveExact | src/storage/clickhouse_dml.cpp:299-321 | The SQL of an output column has that column's value on every row the plan outputs |
| DmlExact.TraceMark | src/storage/clickhouse_dml.cpp:232-240 | Below a traced mark column is the join that computed it, and the mark is the value of its IN list |
| DmlExact.InListFilterExact | src/storage/clickhouse_dml.cpp:245-283 | A filter on a mark column, or NOT of one, has the value of the IN list emitted for it |
| DmlExact.FilterExpressionExact | src/storage/clickhouse_dml.cpp:245-283 | Every filter expression has the value of its SQL |
| DmlExact.TableFilterExact | src/clickhouse_expression.cpp:619-682 | A filter pushed into the scan has the value of its SQL, its optional leaves read as TRUE; a skipped one is TRUE |
| DmlExact.TableConditionsExact | src/storage/clickhouse_dml.cpp:385-399 | The scan's filters select the same as their conditions, on columns read whole or for a nested field |
| DmlExact.TableConditionDrops | src/storage/clickhouse_dml.cpp:385-399 | A pushed filter that keeps a row out does so on the server too, whatever the other filters make of it |
| DmlExact.PredicateExact | src/storage/clickhouse_dml.cpp:323-418 | For every accepted plan, row and either transform_null_in: the collected predicate is TRUE exactly on the rows the plan outputs, as long as the comparisons that matter on that row are made alike |
| DmlExact.DeleteExact | src/storage/clickhouse_dml.cpp:420-458 | A DELETE leaves exactly the rows DuckDB's would, and counts those it removes, by TRUNCATE or by a mutation, if on every row the comparisons that matter are made alike |
| DmlComparisons.ComparisonsExactly | src/storage/clickhouse_dml.cpp:323-418 | A WHERE of any number of comparisons of columns and constants selects a row as DuckDB does if and only if none of them keeps out a row they are all TRUE on, or one does keep out any other row |
| DmlComparisons.KeepsOutExactly | src/clickhouse_expression.cpp:505-517 | A comparison is other than TRUE on the server exactly if it is TRUE in DuckDB and not made alike, or is not TRUE there and not reversed |
| DmlComparisons.PairFilterExactly | src/storage/clickhouse_dml.cpp:323-418 | A filter that compares two columns of any type is accepted, and exact on a row if and only if the comparison is made alike or is TRUE on neither side |
| DmlComparisons.UuidFilterExactly | src/storage/clickhouse_dml.cpp:323-418 | A filter that is one ordered comparison of UUIDs is exact on a row if and only if the halves of the two are ordered the same way: the condition above cannot be weakened there |
| DmlComparisons.UuidFilterDiffers | src/storage/clickhouse_dml.cpp:323-418 | Two UUIDs on which it is not: a row is kept by one side and deleted by the other |
| DmlComparisons.TupleFilterDiffers | src/storage/clickhouse_dml.cpp:323-418 | Two Tuples on which an equality is not: both are (1, NULL), and the row is selected by DuckDB alone |
| DmlUpdate.NoNullElement | src/storage/clickhouse_dml.cpp:542-566 | A source type the check lets pass gives the target no NULL element it cannot hold, at any depth |
| DmlUpdate.NullCheckExactly | src/storage/clickhouse_dml.cpp:570-616 | The check of constants, by itself, finds every NULL out of place if and only if no SimpleAggregateFunction hides an element that cannot be NULL |
| DmlUpdate.HiddenRefused | src/storage/clickhouse_dml.cpp:751-769 | Columns of those types count as converted on the server and are refused: nothing but NULL itself, or the column itself, is ever assigned to one |
| DmlUpdate.HiddenIsConverted | src/storage/clickhouse_dml.cpp:486-506 | A SimpleAggregateFunction, at any depth, that hides such an element makes the column converted on the server, by its first argument, which names a function |
| DmlUpdate.SimpleAggregateRefused | src/storage/clickhouse_dml.cpp:486-506 | The smallest such column |
| DmlUpdate.CastKeepsNulls | src/storage/clickhouse_dml.cpp:781-790 | The cast to a column's type puts a NULL, at any depth, only where there was one |
| DmlUpdate.FloorExact | src/storage/clickhouse_dml.cpp:476-481 | The emitted flooring is the last tick of the column not after the value, before 1970 too |
| DmlUpdate.BuildAssignments | src/storage/clickhouse_dml.cpp:702-805 | The loop over the SET items assigns each, or rejects the statement at the first it cannot |
| DmlUpdate.AssignExact | src/storage/clickhouse_dml.cpp:663-805 | On every row the plan outputs: the value assigned is DuckDB's, floored where the column is coarser; an item left out sets what is there already |
| DmlUpdate.NullSafe | src/storage/clickhouse_dml.cpp:702-805 | On every row, whatever DuckDB makes of it: if the NULL count of an item is zero, no value it assigns is NULL, or holds a NULL at any depth, where the column cannot, whatever type the value is cast from |
| DmlUpdate.ResolvedColumn | src/storage/clickhouse_dml.cpp:464-472 | The SQL of an output found to be an unchanged column gives that column's value, on every row |
| DmlUpdate.ResolvedValue | src/storage/clickhouse_dml.cpp:510-526 | The SQL of an output found to be a constant gives it, on every row |
| DmlTable.UpdateNullSafe | src/storage/clickhouse_dml.cpp:663-829 | For the statement PlanUpdate builds and any rows: if all its null-check counts over the rows its predicate matches are zero, no value the mutation assigns to one of them holds NULL, at the top or at any depth, where the target cannot |
| DmlTable.UpdateExact | src/storage/clickhouse_dml.cpp:663-829 | The table after the mutation is the table after DuckDB's UPDATE: every row, every column, assigned, floored or kept |
| DmlTable.StatementParts | src/storage/clickhouse_dml.cpp:663-829 | An accepted UPDATE has the conditions AnalyzeTarget collects and an assignment for every SET item |
| DmlUpdate.TraceColumn | src/storage/clickhouse_dml.cpp:464-472 | An output found to be an unchanged column of the scan has that column's value |
| DmlUpdate.TraceConstant | src/storage/clickhouse_dml.cpp:510-526 | An output found to be a constant has its value on every row |
| Transactions.TransactionManager.StartTransaction | src/storage/clickhouse_transaction.cpp:34-40 | Hands out the next id and makes it active |
| Transactions.TransactionManager.RetireEntries | src/storage/clickhouse_transaction.cpp:42-49 | Retires a batch stamped with the next id; an empty batch is none |
| Transactions.TransactionManager.OldestActive | src/storage/clickhouse_transaction.cpp:51-80 | The loop finds the least active id, or the next one |
| Transactions.TransactionManager.EndTransaction | src/storage/clickhouse_transaction.cpp:51-80 | Ends the transaction and releases the prefix of batches stamped no later than the oldest left |
| Transactions.ReleaseCountExact | src/storage/clickhouse_transaction.cpp:51-80 | Stamps never decrease, so the prefix holds every batch stamped no later |
| Transactions.EndExact | src/storage/clickhouse_transaction.cpp:51-80 | After it, a batch remains exactly when some active id is below its stamp; what is released and what remains are all there was |
| Transactions.EndOfLast | src/storage/clickhouse_transaction.cpp:51-80 | With no transaction left nothing stays retired |
| CatalogSets.CatalogSet.CreateEntry | src/storage/clickhouse_catalog_set.cpp:90-95 | Appends the entry, the last of a name being the one found |
| CatalogSets.CatalogSet.TryLoadEntries | src/storage/clickhouse_catalog_set.cpp:13-34 | Loads once; a load that fails leaves an empty cache to be loaded again |
| CatalogSets.CatalogSet.GetEntry | src/storage/clickhouse_catalog_set.cpp:36-49 | Finds the last entry of exactly this name, else the first whose name differs only in case |
| CatalogSets.CatalogSet.GetEntryOwner | src/storage/clickhouse_catalog_set.cpp:51-58 | Finds an entry if and only if one has exactly this name |
| CatalogSets.CatalogSet.ClearEntries | src/storage/clickhouse_catalog_set.cpp:72-87 | Takes every cached entry out, for the caller to retire |
| CatalogSets.FindsExactly | src/storage/clickhouse_catalog_set.cpp:36-49 | A lookup finds an entry if and only if one matches without case, and one that does |
| Reclamation.NothingHeldIsReleased | src/storage/clickhouse_transaction.cpp:34-80 | Over every interleaving of starts, loads, lookups, clears, stamps and ends: no schema the manager released, and no table owned by one, is held by an active transaction, even one found through a schema already retired |
| Reclamation.KeptWhileNeeded | src/storage/clickhouse_transaction.cpp:51-80 | After any EndTransaction of any run a batch stays retired exactly while a transaction that may hold one of its entries is active |
| Reclamation.RunKeeps | src/storage/clickhouse_catalog_set.cpp:72-87 | The invariant of every run: cache, limbo and retired entries are apart, and a held entry's stamp is past its holder's id |
| Reclamation.FailedLoadsFreeNothingHeld | src/storage/clickhouse_catalog_set.cpp:13-34 | In a run without a lookup beside a load, a load that fails frees nothing that is held |
| Reclamation.WithoutClears | src/storage/clickhouse_catalog_set.cpp:13-49 | A run without a cache clear is such a run: a lookup goes on only once everything is loaded |
| Reclamation.LookupBesideLoad | src/storage/clickhouse_catalog_set.cpp:13-34 | After any lookup that has passed TryLoadEntries and runs beside a later load, that load's failure frees an entry that is held |
| Reclamation.LookupBesideLoadHappens | src/storage/clickhouse_catalog_set.cpp:13-87 | A run with such a lookup: it passes TryLoadEntries, the cache is cleared and its entries retired, the next load creates an entry |
| Connections.ClickhouseConnection.CancelQuery | src/clickhouse_connection.cpp:267-276 | Ends a running query, or breaks the connection if that fails: nothing is running afterwards unless it is broken |
| Connections.ClickhouseConnection.StartInsert | src/clickhouse_connection.cpp:311-325 | Leaves an insert running even if it throws, and then broken |
| Connections.ClickhouseConnection.SendBlock | src/clickhouse_connection.cpp:327-335 | Throws exactly if it breaks the connection; the insert goes on |
| Connections.ClickhouseConnection.FinishInsert | src/clickhouse_connection.cpp:337-345 | Makes a healthy connection usable again, exactly if it does not throw |
| Connections.ClickhouseConnection.GiveUpInsert | src/clickhouse_connection.cpp:347-351 | Leaves a connection usable exactly if it was: one with an insert running is broken |
| Connections.ClickhouseConnection.CheckHealthy | src/clickhouse_connection.cpp:357-373 | Healthy means usable and unchanged; a usable connection that is not healthy is broken |
| Connections.ClickhouseConnection.PrepareForReuse | database-connector/src/include/dbconnector/pool/connection_pool_impl.hpp:376-406 | Kept means as new; one that is broken or mid-insert is never kept |
| PoolSafety.FailedForGood | src/clickhouse_connection.cpp:267-351 | After a failed cancel, insert start or insert send, an insert given up, or a return in the middle of an insert, at any point of any run: in every continuation the connection stays unusable and no acquire hands it out |
| PoolSafety.DoomedForGood | database-connector/src/include/dbconnector/pool/connection_pool_impl.hpp:376-432 | Broken, or given back mid-insert, is kept by every event sequence |
| Connections.ReturnedUsable | src/storage/clickhouse_connection_pool.cpp:22-37 | Exactly when a returned connection is kept: not broken, not mid-insert, and cancelled if mid-query or else answering; and it is then as new |
| PoolQueue.ConnectionPool.Shutdown | database-connector/src/include/dbconnector/pool/connection_pool_impl.hpp:32-46 | Empties the queue without uncounting what it held |
| PoolQueue.ConnectionPool.SetMaxConnections | database-connector/src/include/dbconnector/pool/connection_pool_impl.hpp:457-471 | Evicts from the back of the queue, and returns what it evicted in that order |
| PoolQueue.ConnectionPool.ReapExpired | database-connector/src/include/dbconnector/pool/connection_pool_impl.hpp:622-661 | One round drops the expired connections and no other |
| PoolQueue.ConnectionPool.PopIdle | database-connector/src/include/dbconnector/pool/connection_pool_impl.hpp:199-217 | Drops expired connections from the front up to the first that is not, and takes that |
| PoolQueue.ConnectionPool.ReturnToQueue | database-connector/src/include/dbconnector/pool/connection_pool_impl.hpp:408-421 | Puts a connection back unless it is expired, the pool shut or over its limit |
| PoolQueue.ConnectionPool.DecrementTotalConnections | database-connector/src/include/dbconnector/pool/connection_pool_impl.hpp:759-765 | Uncounts one, with its guard at zero |
| PoolQueue.EvictExact | database-connector/src/include/dbconnector/pool/connection_pool_impl.hpp:457-471 | Eviction drops the most recently returned: as many as are over the limit, or all |
| PoolQueue.ReapExact | database-connector/src/include/dbconnector/pool/connection_pool_impl.hpp:639-651 | A round leaves the connections that have not expired, in order, and uncounts the others |
| PoolQueue.TakeIdleExact | database-connector/src/include/dbconnector/pool/connection_pool_impl.hpp:199-217 | What is taken is the first that has not expired; those before it are gone and uncounted |
| PoolRuns.PlacesKept | database-connector/src/include/dbconnector/pool/connection_pool_impl.hpp:54-142 | Every step keeps each connection in one place: queue, a thread's slot, a thread's hands, handed out, or gone |
| PoolSafety.RunKeeps | database-connector/src/include/dbconnector/pool/connection_pool_impl.hpp:173-432 | Every reachable state meets the pool's invariant |
| PoolSafety.CountExact | database-connector/src/include/dbconnector/pool/connection_pool_impl.hpp:173-432 | In every reachable state the total is idle + thread-local + handed out + in a thread's hands (probed, created, returned) + what Shutdown cleared, each connection in one place |
| PoolSafety.GuardNeverHides | database-connector/src/include/dbconnector/pool/connection_pool_impl.hpp:759-765 | Wherever a run uncounts a connection there is one to uncount |
| PoolSafety.LimitExact | database-connector/src/include/dbconnector/pool/connection_pool_impl.hpp:408-421 | Over the limit nothing is idle; after Shutdown nothing ever is, and the total only falls |
| PoolSafety.OverLimitExactly | database-connector/src/include/dbconnector/pool/connection_pool_impl.hpp:342-361 | A step takes a pool over its limit if and only if it lowers the maximum below what is out of the queue, or is a FORCE acquire in a full pool with nothing idle |
| PoolSafety.WithinExactly | database-connector/src/include/dbconnector/pool/connection_pool_impl.hpp:219-289 | A run is within the limit after each of its steps if and only if none of them is one of those |
| PoolSafety.WithinLimit | database-connector/src/include/dbconnector/pool/connection_pool_impl.hpp:219-289 | Runs of WAIT and TRY that neither lower the maximum nor raise it from zero stay within it |
| PoolSafety.RaisedFromZero | database-connector/src/include/dbconnector/pool/connection_pool_impl.hpp:147-171 | A run of WAIT acquires that exceeds the limit once the maximum is raised from zero |
| PoolSafety.HandedOutUsable | database-connector/src/include/dbconnector/pool/connection_pool_impl.hpp:75-89 | Every connection an acquire hands out, in any run, is neither broken nor mid-query nor mid-insert |
| FilterPushdown.UuidTextOrder | src/clickhouse_filter_pushdown.cpp:313-320 | UUID text is ordered as DuckDB orders UUIDs, by the whole 128 bits |
| FilterPushdown.UuidTextInjective | src/clickhouse_filter_pushdown.cpp:313-320 | Different UUIDs have different text |
| FilterPushdown.FoldExact | src/clickhouse_filter_pushdown.cpp:127-179 | A folded comparison with an out-of-range or infinite constant is TRUE on exactly the rows the comparison is |
| FilterPushdown.CompareExact | src/clickhouse_filter_pushdown.cpp:305-323 | So is every pushed comparison, UUID ranges included |
| FilterPushdown.ListExactly | src/clickhouse_filter_pushdown.cpp:276-303 | A pushed IN or NOT IN list never loses a row, and is exact on a row if and only if that is not a NULL under a NOT IN that keeps NULLs |
| FilterPushdown.EmptiedNotIn | src/clickhouse_filter_pushdown.cpp:298-300 | The smallest NOT IN that keeps a NULL |
| FilterPushdown.PushedExact | src/clickhouse_filter_pushdown.cpp:236-343 | For every tree of AND and OR: the emitted predicate is TRUE on every row where the filter, its leaves that need not be applied read as TRUE, is TRUE, and on another if and only if a NOT IN that keeps a NULL decides there |
| FilterPushdown.TransformChildren | src/clickhouse_filter_pushdown.cpp:243-263 | The loop over a conjunction skips what restricts nothing in an AND, and gives up an OR that holds it |
| FilterPushdown.TransformFilters | src/clickhouse_filter_pushdown.cpp:345-366 | The loop over the scan's filters collects every condition |
| FilterPushdown.FiltersExact | src/clickhouse_filter_pushdown.cpp:345-366 | The WHERE clause selects every row all filters pass, and exactly those if and only if the row is none they keep on top |
| LimitPushdown.FindClickhouseScan | src/storage/clickhouse_optimizer.cpp:16-36 | The loop finds the ClickHouse scan below any projections |
| LimitPushdown.TraceColumn | src/storage/clickhouse_optimizer.cpp:65-108 | The loop on `current` and the binding finds the table column a key refers to, if it may be sorted by |
| LimitPushdown.BuildOrderByClause | src/storage/clickhouse_optimizer.cpp:110-131 | All keys are traced, or none is pushed |
| LimitPushdown.TraceExact | src/storage/clickhouse_optimizer.cpp:65-108 | A traced key has the value of its column on every row |
| LimitPushdown.SortedAlike | src/storage/clickhouse_optimizer.cpp:110-131 | The scan's rows are in the pushed order exactly when what the projections make of them is in the plan's, ENUM keys included |
| LimitPushdown.SortsAlike | src/clickhouse_types.cpp:463-481 | Both systems sort two values of a pushed key alike, ENUM labels by position in DuckDB and by number on the server |
| TypeMapping.PositionsFollowValues | src/clickhouse_types.cpp:225-283 | DuckDB's positions of an ENUM's labels are ordered as the values the server stores for them |
| TypeMapping.SortExact | src/clickhouse_types.cpp:225-283 | The sort of the entries is stable: the same entries, by value, equal ones in the order they came in |
| LimitPushdown.ReadExactly | src/storage/clickhouse_optimizer.cpp:38-63 | Where every filter is pushed, a limited scan reads the rows DuckDB would have kept if and only if the table has no row that the pushed filters keep on top |
| LimitPushdown.ReadSame | src/storage/clickhouse_optimizer.cpp:38-63 | So it does for such a table, with any limit and order or none |
| LimitPushdown.LimitedListExactly | src/storage/clickhouse_optimizer.cpp:38-63 | With an IN or NOT IN list pushed, that is if and only if no NULL meets a NOT IN that keeps NULLs |
| LimitPushdown.LimitSame | src/storage/clickhouse_optimizer.cpp:133-173 | LIMIT and OFFSET inside the scan give exactly the results they give above the projections |
| LimitPushdown.TopNSame | src/storage/clickhouse_optimizer.cpp:133-173 | So does a TOP_N, ties in any order |
| LimitPushdown.OptimizeSame | src/storage/clickhouse_optimizer.cpp:133-173 | For every plan tree, at any depth and under any other operators: the optimized plan may yield exactly what the original may |
| Widening.WideningExact | src/storage/clickhouse_ddl.cpp:605-639 | Every storable value of an accepted pair, NULL included, is converted by ClickHouse into what DuckDB's ALTER makes of it, and neither fails |
| Widening.DigitsExact | src/storage/clickhouse_ddl.cpp:585-603 | IntegerDigits is exact for every width: the largest magnitude has that many digits |
| Widening.IntegerIntoDecimal | src/storage/clickhouse_ddl.cpp:605-639 | An integer type is accepted into a DECIMAL if and only if all its values fit |
| Widening.DecimalIntoDecimal | src/storage/clickhouse_ddl.cpp:605-639 | A DECIMAL is accepted into another if and only if all its values are values of that |
| Widening.IntegerIntoInteger | src/storage/clickhouse_ddl.cpp:605-639 | An integer type is accepted into one of another width if and only if all its values fit |
| Widening.IntegerIntoFloat | src/storage/clickhouse_ddl.cpp:605-639 | An integer type is accepted into FLOAT or DOUBLE if and only if these hold each of its values |
| Timestamps.PowerOfTen | src/clickhouse_utils.cpp:92-98 | The loop computes the power without leaving 64 bits |
| Timestamps.ScaleExact | src/clickhouse_utils.cpp:100-113 | Scaling up multiplies; scaling down is division rounded down, below zero too |
| Timestamps.ScaleFloors | src/clickhouse_utils.cpp:100-113 | Either way the result is the last tick not after the instant |
| Timestamps.InsertExact | src/clickhouse_writer.cpp:364-421 | Exactly which timestamps, finite or not, an INSERT accepts into DateTime64, and that it stores the floor of a finite one without overflow |
| Timestamps.DateTimeExact | src/clickhouse_writer.cpp:382-421 | The same for DateTime, which takes no infinite one |
| Timestamps.ReadBack | src/clickhouse_conversion.cpp:176-194 | An accepted finite timestamp is read back as its instant floored to the column's digits, at most six, within 64 bits |
| Timestamps.InfinityReadBack | src/clickhouse_writer.cpp:382-421 | +infinity in nanoseconds is accepted, and read back as a finite instant in 2262 |
| Timestamps.UpdateFloorsAlike | src/storage/clickhouse_dml.cpp:476-481 | UPDATE's flooring is scaling down and back up: it stores what an INSERT would |
| Columns.StoredAsIs | src/clickhouse_writer.cpp:589-636 | An accepted row of a type that can lose nothing is stored as it is, at any depth |
| Columns.LosslessExactly | src/clickhouse_writer.cpp:589-636 | Every accepted row is stored as it is if and only if the type has no Nullable Tuple with an element that is not Nullable |
| Columns.NullableTupleLoses | src/clickhouse_writer.cpp:589-636 | The smallest row that is not |
| Writer.AppendScalars | src/clickhouse_writer.cpp:173-190 | Keeps the column's rows and appends the selected ones, or refuses a NULL |
| Writer.CountElements | src/clickhouse_writer.cpp:520-566 | The number of elements of the selected rows, or a refused NULL |
| Writer.SelectElements | src/clickhouse_writer.cpp:520-566 | The selection of all those elements, row by row |
| Writer.AppendEnds | src/clickhouse_writer.cpp:520-566 | The new rows' end positions, absolute in a data column that holds elements already |
| Writer.AppendListRows | src/clickhouse_writer.cpp:520-566 | Keeps the array's rows and appends the selected ones, exactly if all are accepted |
| Writer.AppendMap | src/clickhouse_writer.cpp:576-587 | The same for a MAP |
| Writer.AppendStruct | src/clickhouse_writer.cpp:589-612 | The same for a STRUCT, field by field |
| Writer.AppendFields | src/clickhouse_writer.cpp:589-612 | Every field's column gains that field's values |
| Writer.FindNullRow | src/clickhouse_writer.cpp:589-612 | The loop that refuses a NULL STRUCT finds one if and only if one is selected |
| Writer.AppendNullable | src/clickhouse_writer.cpp:614-623 | Keeps the rows and appends the selected ones, flags and nested values in step |
| Writer.AppendFlags | src/clickhouse_writer.cpp:614-623 | One flag per row, set exactly for NULLs |
| Writer.AppendRows | src/clickhouse_writer.cpp:638-734 | For every column type and any rows already there: the selected rows are appended behind them, exactly if all are accepted |
| Appends.AppendedThrough | src/clickhouse_writer.cpp:638-734 | Two appends in a row are one of both selections |
| Reader.ConvertColumn | src/clickhouse_conversion.cpp:339-428 | The vector made of a slice of a column holds exactly those rows, for every column type |
| Reader.ConvertList | src/clickhouse_conversion.cpp:291-325 | An array's slice: entries relative to the elements decoded, which are the slice's own |
| Reader.ReadEntries | src/clickhouse_conversion.cpp:291-325 | The loop over the rows' ends gives each row's offset and length |
| Reader.ConvertStruct | src/clickhouse_conversion.cpp:327-337 | A tuple's slice, field by field |
| Reader.ConvertNumeric | src/clickhouse_conversion.cpp:31-40 | The loop over a scalar column copies the slice |
| Insert.GlobalState.Sink | src/storage/clickhouse_insert.cpp:288-313 | Appends the chunk behind what is pending, counts it, and sends a block once enough rows are pending; fails exactly if a row is refused |
| Insert.GlobalState.AppendChunk | src/storage/clickhouse_insert.cpp:288-313 | The loop over the columns appends every one of them |
| Insert.GlobalState.Flush | src/storage/clickhouse_insert.cpp:146-157 | Sends what is pending as one block and loses no row |
| Insert.GlobalState.Finalize | src/storage/clickhouse_insert.cpp:315-330 | Sends the rest: the blocks hold everything sunk, and all but the last have block_size rows at least |
| Insert.InsertAll | src/storage/clickhouse_insert.cpp:288-330 | For every sequence of chunks and every block size: it succeeds exactly if every row is accepted, and then the blocks decode to the input rows in order, insert_count is their number, and every block but the last is large enough |
| StoreAndLoad.InsertAndRead | src/storage/clickhouse_insert.cpp:288-330 | Every chunk through the INSERT and every block it sends through the reader: what comes out is what went in, as it is stored, in order; the very rows if no type can lose a NULL |
| Insert.AppendedRows | src/storage/clickhouse_insert.cpp:288-313 | After a chunk the pending block decodes to its rows and then the chunk's |
| Insert.RowsAsTheyAre | src/storage/clickhouse_insert.cpp:288-330 | Rows without a NULL that could become a default are stored as they are |
| Scanner.ConvertBlock | src/clickhouse_conversion.cpp:430-456 | Every output vector holds the slice of the block's column it is projected from |
| Scanner.GlobalState.FetchNextBlock | src/clickhouse_scanner.cpp:196-226 | Passes over empty blocks, hands out the next one under the next batch index, and remembers the end or a failure |
| Scanner.RunKeeps | src/clickhouse_scanner.cpp:196-244 | Every interleaving keeps batches in server order, workers apart and chunks contiguous |
| Scanner.EveryRowOnce | src/clickhouse_scanner.cpp:196-244 | In every interleaving that reaches the end, the chunks by batch index hold every row exactly once in server order |
| StoreAndLoad.PutOut | src/clickhouse_scanner.cpp:228-244 | A worker's chunk, decoded column by column, holds exactly the rows its turn adds to its batch, at most a vector of them |
| StoreAndLoad.ScanReadsBack | src/clickhouse_scanner.cpp:196-244 | In every interleaving that reaches the end, the chunks of a scan over the blocks an INSERT sent are the rows it sent |
| Scanner.EveryBlockOnce | src/clickhouse_scanner.cpp:196-244 | No block is asked for after the end or a failure, no two workers share one, and each batch is a start of its own block |
| Utf8.IsValidUtf8 | src/clickhouse_utils.cpp:34-76 | Accepts a text if and only if it is the concatenation of encodings of scalar values, and never reads past its end |
| Utf8.ReadCharacter | src/clickhouse_utils.cpp:34-76 | The loop over one character's continuation bytes accepts exactly the encodings |
| Utf8.AcceptedIsEncoding | src/clickhouse_utils.cpp:34-76 | What is taken for a character is the encoding of a scalar value: nothing overlong, no surrogate, nothing above U+10FFFF |
| Utf8.EncodingIsAccepted | src/clickhouse_utils.cpp:34-76 | Every scalar value's encoding is taken for a character |
| Utf8.SyntaxExact | src/clickhouse_utils.cpp:34-76 | The grammar of section 4 of RFC 3629 admits exactly the texts that encode scalar values as in section 3 |

## Left out

- PoolSafety.WithinLimit: one direction only, for a condition on the calls alone; WithinExactly is the if-and-only-if.
- LimitPushdown.OptimizeSame: for plans whose scans that a limit is moved into have no row that their pushed filters keep on top; ReadExactly is the if-and-only-if for what such a scan reads.
- Expressions.TranslateExact: on the rows on which its comparisons are made alike (ComparisonExactly and BetweenExactly decide each); a zero divisor or an overflow on the server is an error, not a value.
- DmlUpdate.NullSafe: for types as ClickHouse has them, in which a wrapper other than one LowCardinality around one Nullable is a SimpleAggregateFunction whose first argument names a function.
- StoreAndLoad.InsertAndRead: the rows as they are stored; they are the input rows where LosslessExactly's condition holds.
- String functions, LIKE and ILIKE: a translated function call means the same abstract function on both sides; LIKE patterns are not part of this model.
- Floating point: FLOAT and DOUBLE values are reals; NaN, infinities and rounding are not part of this model.
- Emitted SQL is a syntax tree: its text, with parentheses and operator precedence, is not part of this model, but for type texts and quoting.
- How ClickHouse compares nested values is not in this repository: the model takes Tuples field by field in three-valued logic, and Arrays and Maps position by position with NULL last.
- A comparison of ENUM labels in a WHERE or SET is by position on both sides, which PositionsFollowValues makes the order of the server's values; the numbers themselves are modelled for ORDER BY alone.
- Nested fields: the scan reads their columns whole, and a filter pushed on one is on the whole value; other references to one are refused.
- IsRewrittenDefault is an input of the model: what ClickHouse makes of a default expression is not part of it.
- PlanUpdate's SQL text and settings, and the mutation's execution in the background.
- CatalogSet's loading of a table's columns from the server, and the extra ownership GetEntryOwner gives its caller.
- Clocks, waiting and timeouts of the pool: expiry, health and pings are free inputs; an acquire's loop is the sequence of its steps under the lock.
- The reaper's thread, and PooledConnection's move assignment, are not part of this model.
- The pool is modelled on values: that a connection is one object, owned by one pointer, is its one place.
- Optimizer plans and columns are values: they are replaced, not changed in place, so aliasing between them is not part of this model.
- The writer's and reader's conversions of single scalar values, other than timestamps: a scalar is a number.
- LowCardinality columns, and STRUCT vectors behind a dictionary, which the writer flattens first.
- The check for duplicate keys when a MAP is read.
- CREATE TABLE AS, the preparation of an INSERT's target, and the destructor that aborts an INSERT.
- The mask-and-shift arithmetic of the UTF-8 validator is modelled as division and remainder of bytes.
- Views and engines that refuse every change; ALTER statements other than the widening of a type, CREATE, ATTACH, secrets, settings and error messages.
- The text parsing done on the server (IPv4 and IPv6, wide integers and decimals, WKT, JSON).
