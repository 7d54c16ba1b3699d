# Presto Phoenix connector: a verified model of its core

This project models the core of the Presto connector for Apache Phoenix in Dafny:

- **The page source** (`PhoenixPageSource`). It pulls rows from a JDBC result set in bounded batches of 4096. It converts each column value into a cell of the column's Presto type and buffers the cells into blocks. It hands out a page only when the builder is full or the stream has ended. It closes itself on exhaustion and on any failure while reading.
- **The record cursor** (`PhoenixRecordCursor`). It is the row-at-a-time reader, with its typed getters, `isNull`, `getObject` for arrays, `close` and the wrapping of driver errors.
- **The split** (`PhoenixSplit`). It is an immutable descriptor that carries the serialized Phoenix input split as a Base64 token through JSON.
- **The metadata write path** (`PhoenixMetadata`). It keeps at most one pending rollback action across `beginCreateTable`/`finishCreateTable`/`beginInsert`/`finishInsert`/`rollback`. It also covers the `allowDropTable` permission, the "target table already exists" guard and `listTableColumns`.

## Layout

Each stateful component is a `class` whose fields the source updates in place. Its methods are proved equal to a specification function on a snapshot of those fields, for example `(Snapshot(), r) == NextPageSpec(cfg, old(Snapshot()), now)`. The lemmas prove what the source promises about those functions.

| module | file | models |
|---|---|---|
| `Common` | common.dfy | Option/Result, Java `int`/`long` ranges, narrowing casts |
| `Values` | values.dfy | Presto types, the driver's Java objects, cells, faults, the date/time arithmetic, `createArrayFromArrayObject` |
| `Jdbc` | jdbc.dfy | the JDBC result set the readers use: `next`, `getObject`, `close`, row sizes |
| `Coercion` | coercion.dfy | `appendTo`, `writeSlice`, `writeBlock` of the page source |
| `PageSource` | page_source.dfy | `getNextPage`, `isFinished`, `close`, `handleSqlException`, the accounting getters |
| `RecordCursor` | record_cursor.dfy | the cursor's getters, `advanceNextPosition`, `isNull`, `getObject`, `close` |
| `Base64` | base64.dfy | `java.util.Base64` encoder (RFC 4648 section 4) and its lenient decoder |
| `Split` | split.dfy | both `PhoenixSplit` constructors, `getScans`, `getAddresses`, the JSON round trip |
| `Metadata` | metadata.dfy | the rollback state machine, `createTable`, `dropTable`, `listTableColumns` |

Collaborators appear as parameters:

- **Clock.** `System.nanoTime()` is a `now` argument.
- **Time zone.** The JVM zone's offset is a function in `Env`.
- **Float bits.** `floatToRawIntBits(floatValue())` is a function in `Env`.
- **Hadoop serialization.** `write`/`readFields` and `getLocations` are functions in `SplitIo`.
- **Phoenix client.** `PhoenixClient` is not part of this model. In `Metadata` it is a catalog, a map from table name to columns:
  - its `createTable` adds a missing table and keeps an existing one;
  - its `dropTable` removes the table;
  - its `getTableHandle` and `getColumns` answer from the map;
  - `getTableNames` is the `listing` argument.
- **Rollback action.** The lambda `() -> rollbackCreateTable(handle)` is the value `DropCreatedTable(handle)`. `rollback()` runs it through `RunActionSpec`. A ghost log `executed` records every action run.

Behaviours of the code a reader may not expect:

- `beginInsert` registers no rollback action; its `setRollback` is commented out. A `rollback()` after it therefore runs nothing (`Metadata.BeginInsertRegistersNothing`).
- A CHAR value is trimmed by the cursor's `getSlice` but not by the page source's `writeSlice` (`Coercion.TextConversions`, `RecordCursor.SliceAndDecimalRules`).
- `getObject` of the cursor has no closed check. Its type check runs outside the `try`, so those failures leave the cursor open (`RecordCursor.BadFieldIndex`, `RecordCursor.ClosedCursorGuards`).
- A row that fails partway through its columns leaves one position declared with fewer cells in the later blocks. `build()` runs outside the `try`, so the next `getNextPage` of the closed reader fails with `PageBuilder`'s unwrapped IllegalStateException, and the reader never becomes finished (`PageSource.FailedRowNeverFinishes`).

## Model

| member | source | states |
|---|---|---|
| Values.LongValueOf | src/main/java/com/facebook/presto/plugin/phoenix/PhoenixPageSource.java:168 | `((Number) value).longValue()`: defined exactly for the number objects and the identity on integral ones, in `long` range |
| Values.IntValueOf | src/main/java/com/facebook/presto/plugin/phoenix/PhoenixPageSource.java:171 | `((Number) value).intValue()`: defined exactly for numbers; an integral value becomes its low 32 bits (`ToInt32`: in int range, and congruent to the value modulo 2^32), so values that fit an `int` are kept |
| Values.DateDays | src/main/java/com/facebook/presto/plugin/phoenix/PhoenixPageSource.java:179-184 | the local midnight shifted by the zone offset, divided into whole days truncated toward zero (the two bracketing inequalities for each sign), and an overflow fault exactly when the shifted instant leaves `long` range |
| Values.MillisOfDay | src/main/java/com/facebook/presto/plugin/phoenix/PhoenixPageSource.java:187 | the UTC millisecond of the day lies in [0, 86400000) and differs from the instant by whole days |
| Values.CreateArrayFromArrayObject | src/main/java/com/facebook/presto/plugin/phoenix/PhoenixPageSource.java:263-281 | null for a non-array object; an object array is handed back with the same elements; a primitive array is copied by the loop into a fresh array of the same length, element for element |
| Coercion.AppendTo | src/main/java/com/facebook/presto/plugin/phoenix/PhoenixPageSource.java:154-213 | a null value appends a null; a null cell comes out exactly for a null value or a mapped type whose value has the wrong class (the swallowed ClassCastException); an unmapped Java type is GENERIC_INTERNAL_ERROR; every cell written fits its column type; every escaping fault is one the branches can raise |
| Coercion.WriteBlock | src/main/java/com/facebook/presto/plugin/phoenix/PhoenixPageSource.java:237-261 | an array value becomes one array entry, a non-array value a null; cells fit the type; faults are coercion faults |
| Coercion.AppendElements | src/main/java/com/facebook/presto/plugin/phoenix/PhoenixPageSource.java:242-247 | the elements appended into the entry: one cell per remaining element, each fitting the element type |
| Coercion.AppendToTotal | src/main/java/com/facebook/presto/plugin/phoenix/PhoenixPageSource.java:154-213 | for a type the switch maps fully, well-shaped arrays and a zone offset that never overflows, `appendTo` never throws |
| Coercion.AppendElementsTotal | src/main/java/com/facebook/presto/plugin/phoenix/PhoenixPageSource.java:242-247 | under the same conditions every array element is appended without an exception |
| Coercion.AppendElementsStep | src/main/java/com/facebook/presto/plugin/phoenix/PhoenixPageSource.java:242-247 | a completed entry is the cell of its first element followed by the cells of the rest |
| Coercion.ArrayEntryElementwise | src/main/java/com/facebook/presto/plugin/phoenix/PhoenixPageSource.java:243-247 | the k-th cell of an array entry is `appendTo` of the element type applied to the k-th element |
| Coercion.NumericConversions | src/main/java/com/facebook/presto/plugin/phoenix/PhoenixPageSource.java:165-228 | INTEGER, SMALLINT and TINYINT write `intValue()`, the number wrapped to 32 bits, for every integral number (and so keep one in int range), BIGINT the number and TIMESTAMP the instant's long; a short decimal becomes its unscaled value and a long one the encoded decimal |
| Coercion.TextConversions | src/main/java/com/facebook/presto/plugin/phoenix/PhoenixPageSource.java:214-224 | VARCHAR and CHAR keep the string untrimmed, VARBINARY keeps the bytes |
| Coercion.TimeIsUtcMillisOfDay | src/main/java/com/facebook/presto/plugin/phoenix/PhoenixPageSource.java:186-187 | TIME always converts, to a millisecond of the day congruent to the instant |
| Coercion.DateOfLocalMidnight | src/main/java/com/facebook/presto/plugin/phoenix/PhoenixPageSource.java:179-184 | a date whose local midnight is day d in UTC converts to d, for negative days too |
| Coercion.DateExample | src/main/java/com/facebook/presto/plugin/phoenix/PhoenixPageSource.java:179-184 | the local midnight of 2024-03-01 converts to day 19783 |
| Coercion.TimeExample | src/main/java/com/facebook/presto/plugin/phoenix/PhoenixPageSource.java:186-187 | 13:45:30 of any day converts to 49530000 |
| Coercion.MismatchIsNull | src/main/java/com/facebook/presto/plugin/phoenix/PhoenixPageSource.java:221-260 | a VARBINARY value that is not a byte array, and an ARRAY value that is not a `java.sql.Array`, append a null |
| Coercion.NonArrayContentsIsFatal | src/main/java/com/facebook/presto/plugin/phoenix/PhoenixPageSource.java:242-245 | an `Array` whose contents are not a Java array fails with a NullPointerException, which is not swallowed |
| Base64.Encode | src/main/java/com/facebook/presto/plugin/phoenix/PhoenixSplit.java:64 | `encodeToString`: four characters per started group of three bytes, with `=` only in the last two positions |
| Base64.DecodeEncode | src/main/java/com/facebook/presto/plugin/phoenix/PhoenixSplit.java:64-87 | the JSON creator's decoder gives back exactly the bytes the first constructor encoded, for every byte string |
| Base64.DecodeEncodeOne | src/main/java/com/facebook/presto/plugin/phoenix/PhoenixSplit.java:64-87 | one byte encodes to a unit with two `=` that decodes back to it |
| Base64.DecodeEncodeTwo | src/main/java/com/facebook/presto/plugin/phoenix/PhoenixSplit.java:64-87 | two bytes encode to a unit with one `=` that decodes back to them |
| Base64.EncodedOutputIsCanonical | src/main/java/com/facebook/presto/plugin/phoenix/PhoenixSplit.java:64 | the token's length is a multiple of four, and without padding every character is in the alphabet |
| Split.RequiredArguments | src/main/java/com/facebook/presto/plugin/phoenix/PhoenixSplit.java:54-58 | the three `requireNonNull` checks in their order, each with its own message |
| Split.FromInputSplit | src/main/java/com/facebook/presto/plugin/phoenix/PhoenixSplit.java:46-68 | fails exactly on a missing required argument or a null input split; keeps every coordinate; the token is present exactly when `write` succeeded and then decodes to the written bytes |
| Split.FromJson | src/main/java/com/facebook/presto/plugin/phoenix/PhoenixSplit.java:70-97 | succeeds exactly when the required arguments are present and the token decodes; a malformed token is an IllegalArgumentException; the token is kept verbatim; the input split is what `readFields` makes of the decoded bytes (null on an IOException) |
| Split.GetScans | src/main/java/com/facebook/presto/plugin/phoenix/PhoenixSplit.java:131-135 | the token as carried in JSON |
| Split.IsRemotelyAccessible | src/main/java/com/facebook/presto/plugin/phoenix/PhoenixSplit.java:141-145 | every split is remotely accessible |
| Split.GetAddresses | src/main/java/com/facebook/presto/plugin/phoenix/PhoenixSplit.java:147-157 | at most one address; exactly one iff the input split is there, reports its locations and the first one parses; that address is the parsed first location |
| Split.JsonRoundTrip | src/main/java/com/facebook/presto/plugin/phoenix/PhoenixSplit.java:46-97 | a split sent through JSON comes back with the same coordinates and token, its input split read from the written bytes; with a serializer that round-trips, equal to the sent split |
| Split.TokenIsStable | src/main/java/com/facebook/presto/plugin/phoenix/PhoenixSplit.java:70-97 | a split read from JSON and written back yields the same token and reads back to the same split |
| PageSource.ReadTimeNanos | src/main/java/com/facebook/presto/plugin/phoenix/PhoenixPageSource.java:97-101 | zero before the first page; the frozen interval once the reader has closed |
| PageSource.CloseSpec | src/main/java/com/facebook/presto/plugin/phoenix/PhoenixPageSource.java:284-301 | close is a no-op when closed; otherwise the reader is closed even when closing the result set fails, and then `nanoEnd` is not recorded |
| PageSource.HandleSqlExceptionSpec | src/main/java/com/facebook/presto/plugin/phoenix/PhoenixPageSource.java:303-315 | the reader is closed and the error wrapped, carrying the close failure as suppressed |
| PageSource.ColumnCellIsAppendTo | src/main/java/com/facebook/presto/plugin/phoenix/PhoenixPageSource.java:134 | the cell of a column is `appendTo` of the value `getObject(name)` returns, and a failing `getObject` is an SQL error |
| PageSource.AppendColumns | src/main/java/com/facebook/presto/plugin/phoenix/PhoenixPageSource.java:132-135 | the column loop keeps the number of blocks |
| PageSource.AppendColumnsCells | src/main/java/com/facebook/presto/plugin/phoenix/PhoenixPageSource.java:132-135 | a completed row adds exactly one cell, `appendTo`'s, to every column; a failed row adds at most one to each; earlier columns are untouched |
| PageSource.ReadBatch | src/main/java/com/facebook/presto/plugin/phoenix/PhoenixPageSource.java:124-136 | the bounded loop keeps the rows, moves the result set forward by at most `ROWS_PER_REQUEST` minus the iterations done, and declares one position per row read |
| PageSource.ReadIteration | src/main/java/com/facebook/presto/plugin/phoenix/PhoenixPageSource.java:125-135 | iteration i onwards (`next()`, then a close or a row): the same bounds as the whole loop, with iteration i counted |
| PageSource.ReadRowThenBatch | src/main/java/com/facebook/presto/plugin/phoenix/PhoenixPageSource.java:129-135 | a row and the iterations after it declare one position for that row and one per row read afterwards |
| PageSource.ReadRow | src/main/java/com/facebook/presto/plugin/phoenix/PhoenixPageSource.java:129-135 | one row adds its size to `bytesRead`, declares a position, and appends the columns |
| PageSource.NextPageSpec | src/main/java/com/facebook/presto/plugin/phoenix/PhoenixPageSource.java:115-152 | a call keeps the reader consistent and never moves the result set backwards |
| PageSource.ReadBatchBytes | src/main/java/com/facebook/presto/plugin/phoenix/PhoenixPageSource.java:124-129 | `bytesRead` grows by exactly the sizes of the rows read |
| PageSource.ReadBatchBlocks | src/main/java/com/facebook/presto/plugin/phoenix/PhoenixPageSource.java:124-135 | a batch without failure extends every block by one cell per row read, keeping its earlier cells |
| PageSource.ReadBatchCells | src/main/java/com/facebook/presto/plugin/phoenix/PhoenixPageSource.java:124-135 | a batch without failure appends to column k, at offset j past its earlier cells, the cell `appendTo` makes of column k's value in the j-th row read |
| PageSource.ReadBatchStops | src/main/java/com/facebook/presto/plugin/phoenix/PhoenixPageSource.java:124-128 | the loop stops early only at the end of the rows, and then the reader and result set are closed with `nanoEnd` recorded |
| PageSource.ClosedReaderFinishes | src/main/java/com/facebook/presto/plugin/phoenix/PhoenixPageSource.java:110-151 | a closed reader whose blocks are whole returns its buffered rows as one page (none when it buffers nothing) and is finished after that call |
| PageSource.AtMostRowsPerRequest | src/main/java/com/facebook/presto/plugin/phoenix/PhoenixPageSource.java:124-129 | one call reads at most 4096 rows, and `bytesRead` grows by exactly their sizes |
| PageSource.NoEmptyPage | src/main/java/com/facebook/presto/plugin/phoenix/PhoenixPageSource.java:143-151 | a page is returned only with a row in it and only once the reader is closed or the builder full; otherwise no page |
| PageSource.PageHoldsBufferedRows | src/main/java/com/facebook/presto/plugin/phoenix/PhoenixPageSource.java:124-151 | a page holds the rows buffered before the call followed by those read in it, one cell per row in each block; the cell of column k at position (rows buffered before) + j is `appendTo` of column k's value in the j-th row read; the builder is reset |
| PageSource.StaysRectangular | src/main/java/com/facebook/presto/plugin/phoenix/PhoenixPageSource.java:131-148 | from whole blocks, a successful call leaves every block with one cell per declared position |
| PageSource.FinishedAfterFlush | src/main/java/com/facebook/presto/plugin/phoenix/PhoenixPageSource.java:110-151 | the page flushed on closing leaves the reader finished; a finished reader returns no page and stays finished |
| PageSource.FailureCloses | src/main/java/com/facebook/presto/plugin/phoenix/PhoenixPageSource.java:138-140 | a failure while reading closes the reader and comes out wrapped, carrying at most the close failure |
| PageSource.BuildFailsOnlyOnPartialRow | src/main/java/com/facebook/presto/plugin/phoenix/PhoenixPageSource.java:143-148 | the only unwrapped failure is `build()`'s IllegalStateException, and it happens only when the call started with a block short of the declared positions, which it leaves so |
| PageSource.OpenReaderIsRectangular | src/main/java/com/facebook/presto/plugin/phoenix/PhoenixPageSource.java:124-151 | an open reader's blocks stay whole from call to call, so on such a reader every failure, `build()`'s included, leaves it closed |
| PageSource.FailedRowNeverFinishes | src/main/java/com/facebook/presto/plugin/phoenix/PhoenixPageSource.java:110-148 | a reader closed by a row that failed partway fails in `build()` on every later call and never becomes finished |
| PageSource.CloseIdempotent | src/main/java/com/facebook/presto/plugin/phoenix/PhoenixPageSource.java:284-301 | close leaves the reader closed, and a second close does nothing |
| PageSource.PhoenixPageSource.constructor | src/main/java/com/facebook/presto/plugin/phoenix/PhoenixPageSource.java:78-89 | a new reader is open with nothing read, no time recorded and empty blocks, and converts with `appendTo` |
| PageSource.PhoenixPageSource.GetCompletedBytes | src/main/java/com/facebook/presto/plugin/phoenix/PhoenixPageSource.java:91-95 | the bytes read so far |
| PageSource.PhoenixPageSource.GetReadTimeNanos | src/main/java/com/facebook/presto/plugin/phoenix/PhoenixPageSource.java:97-101 | the read time of the reader's state |
| PageSource.PhoenixPageSource.IsFinishedNow | src/main/java/com/facebook/presto/plugin/phoenix/PhoenixPageSource.java:110-113 | `isFinished` of the reader's state |
| PageSource.PhoenixPageSource.Close | src/main/java/com/facebook/presto/plugin/phoenix/PhoenixPageSource.java:284-301 | the fields change as `CloseSpec` says |
| PageSource.PhoenixPageSource.HandleSqlException | src/main/java/com/facebook/presto/plugin/phoenix/PhoenixPageSource.java:303-315 | the fields change and the error is built as `HandleSqlExceptionSpec` says |
| PageSource.PhoenixPageSource.AppendRow | src/main/java/com/facebook/presto/plugin/phoenix/PhoenixPageSource.java:132-135 | the column loop changes only the blocks, as `AppendColumns` says |
| PageSource.PhoenixPageSource.ReadRowInPlace | src/main/java/com/facebook/presto/plugin/phoenix/PhoenixPageSource.java:129-135 | one row changes the fields as `ReadRow` says |
| PageSource.PhoenixPageSource.ReadBatchInPlace | src/main/java/com/facebook/presto/plugin/phoenix/PhoenixPageSource.java:124-136 | the bounded loop changes the fields as `ReadBatch` says |
| PageSource.PhoenixPageSource.ReadStep | src/main/java/com/facebook/presto/plugin/phoenix/PhoenixPageSource.java:124-135 | one iteration either ends the loop with the state `ReadBatch` gives, or leaves what remains of the loop unchanged |
| PageSource.PhoenixPageSource.GetNextPage | src/main/java/com/facebook/presto/plugin/phoenix/PhoenixPageSource.java:115-152 | `getNextPage` changes the fields and returns the page as `NextPageSpec` says |
| RecordCursor.GetType | src/main/java/com/facebook/presto/plugin/phoenix/PhoenixRecordCursor.java:146-150 | the column's type for an index in range, an IndexOutOfBoundsException otherwise |
| RecordCursor.CloseSpec | src/main/java/com/facebook/presto/plugin/phoenix/PhoenixRecordCursor.java:367-384 | close is a no-op when closed; otherwise the cursor is closed even when closing fails, and then `nanoEnd` is not recorded |
| RecordCursor.HandleSqlExceptionSpec | src/main/java/com/facebook/presto/plugin/phoenix/PhoenixRecordCursor.java:386-398 | the cursor is closed and the error wrapped, carrying the close failure as suppressed |
| RecordCursor.ReadTimeNanos | src/main/java/com/facebook/presto/plugin/phoenix/PhoenixRecordCursor.java:134-138 | zero before the first advance; the frozen interval once closed |
| RecordCursor.AdvanceSpec | src/main/java/com/facebook/presto/plugin/phoenix/PhoenixRecordCursor.java:152-177 | the result set stays well formed |
| RecordCursor.TrimTrailingSpaces | src/main/java/com/facebook/presto/plugin/phoenix/PhoenixRecordCursor.java:261 | a prefix of the string, ending in no space, having dropped only spaces |
| RecordCursor.IntegralOf | src/main/java/com/facebook/presto/plugin/phoenix/PhoenixRecordCursor.java:197-214 | the integral getters: zero for SQL NULL, the number's `longValue()`, a driver error for anything else |
| RecordCursor.LongOf | src/main/java/com/facebook/presto/plugin/phoenix/PhoenixRecordCursor.java:196-231 | the `getLong` conversions fail only with a driver error, a NullPointerException or a date overflow |
| RecordCursor.SliceOf | src/main/java/com/facebook/presto/plugin/phoenix/PhoenixRecordCursor.java:256-268 | the `getSlice` conversions fail only with a driver error or a NullPointerException |
| RecordCursor.Fail | src/main/java/com/facebook/presto/plugin/phoenix/PhoenixRecordCursor.java:234-236 | a failure inside the try closes the cursor and wraps the error with the close failure |
| RecordCursor.WriteObject | src/main/java/com/facebook/presto/plugin/phoenix/PhoenixRecordCursor.java:325-346 | a null non-array element is a null cell; a nested array element always fails; failures are cast or null-pointer exceptions |
| RecordCursor.ElementCells | src/main/java/com/facebook/presto/plugin/phoenix/PhoenixRecordCursor.java:316-323 | a written block has one cell per element |
| RecordCursor.ElementCellsElementwise | src/main/java/com/facebook/presto/plugin/phoenix/PhoenixRecordCursor.java:316-323 | the block is written iff every element is, and then its k-th cell is `writeObject` of the k-th element |
| RecordCursor.ElementCellsFailureSticks | src/main/java/com/facebook/presto/plugin/phoenix/PhoenixRecordCursor.java:319-321 | once an element fails, the elements after it do not matter |
| RecordCursor.TrimTrailingSpacesStable | src/main/java/com/facebook/presto/plugin/phoenix/PhoenixRecordCursor.java:261 | trimming is idempotent and ignores any added trailing spaces |
| RecordCursor.TrimExample | src/main/java/com/facebook/presto/plugin/phoenix/PhoenixRecordCursor.java:261 | "ab  " trims to "ab"; leading and inner spaces stay |
| RecordCursor.ClosedCursorGuards | src/main/java/com/facebook/presto/plugin/phoenix/PhoenixRecordCursor.java:152-365 | on a closed cursor every getter and `isNull` throw the IllegalStateException without touching anything, `advanceNextPosition` returns false, and `getObject` has no such guard |
| RecordCursor.UnhandledTypesClose | src/main/java/com/facebook/presto/plugin/phoenix/PhoenixRecordCursor.java:191-274 | `getLong` and `getSlice` reject exactly the types they do not name, with GENERIC_INTERNAL_ERROR; every failure leaves the cursor closed |
| RecordCursor.BadFieldIndex | src/main/java/com/facebook/presto/plugin/phoenix/PhoenixRecordCursor.java:192-365 | a bad field index closes the cursor in `getLong`, escapes unwrapped from `getObject` leaving the cursor open, and is an IllegalArgumentException in `isNull` |
| RecordCursor.IsNullReadsField | src/main/java/com/facebook/presto/plugin/phoenix/PhoenixRecordCursor.java:348-365 | `isNull` reads the field and reports exactly whether it held SQL NULL; a failing read closes the cursor |
| RecordCursor.DateTimeRules | src/main/java/com/facebook/presto/plugin/phoenix/PhoenixRecordCursor.java:216-231 | TIMESTAMP gives the milliseconds, TIME the UTC millisecond of the day, DATE the UTC day of the local midnight |
| RecordCursor.SliceAndDecimalRules | src/main/java/com/facebook/presto/plugin/phoenix/PhoenixRecordCursor.java:209-268 | a short decimal's unscaled value, from a decimal or an integral number; VARCHAR as is; CHAR with its trailing spaces trimmed; VARBINARY the driver's bytes as they are, a driver error for any other non-null object and a NullPointerException for null; a decimal slice encoded, from a decimal or an integral number |
| RecordCursor.AdvanceEffect | src/main/java/com/facebook/presto/plugin/phoenix/PhoenixRecordCursor.java:152-177 | true moves one row on and adds its size; false means the rows ran out and the cursor closed; a failure closes it; the first call records the start time |
| RecordCursor.CloseAndHandleSqlException | src/main/java/com/facebook/presto/plugin/phoenix/PhoenixRecordCursor.java:367-398 | close is idempotent; `handleSqlException` closes and attaches only its own close failure, and only when the cursor was open |
| RecordCursor.PhoenixRecordCursor.constructor | src/main/java/com/facebook/presto/plugin/phoenix/PhoenixRecordCursor.java:99-132 | a new cursor is open over the result set with nothing read |
| RecordCursor.PhoenixRecordCursor.GetCompletedBytes | src/main/java/com/facebook/presto/plugin/phoenix/PhoenixRecordCursor.java:140-144 | the bytes read so far |
| RecordCursor.PhoenixRecordCursor.GetReadTimeNanos | src/main/java/com/facebook/presto/plugin/phoenix/PhoenixRecordCursor.java:134-138 | the read time of the cursor's state |
| RecordCursor.PhoenixRecordCursor.Close | src/main/java/com/facebook/presto/plugin/phoenix/PhoenixRecordCursor.java:367-384 | the fields change as `CloseSpec` says |
| RecordCursor.PhoenixRecordCursor.HandleSqlException | src/main/java/com/facebook/presto/plugin/phoenix/PhoenixRecordCursor.java:386-398 | the fields change and the error is built as `HandleSqlExceptionSpec` says |
| RecordCursor.PhoenixRecordCursor.AdvanceNextPosition | src/main/java/com/facebook/presto/plugin/phoenix/PhoenixRecordCursor.java:152-177 | the fields change and the answer is as `AdvanceSpec` says |
| RecordCursor.PhoenixRecordCursor.GetLong | src/main/java/com/facebook/presto/plugin/phoenix/PhoenixRecordCursor.java:191-237 | as `GetLongSpec` says |
| RecordCursor.PhoenixRecordCursor.GetSlice | src/main/java/com/facebook/presto/plugin/phoenix/PhoenixRecordCursor.java:251-274 | as `GetSliceSpec` says |
| RecordCursor.PhoenixRecordCursor.GetBoolean | src/main/java/com/facebook/presto/plugin/phoenix/PhoenixRecordCursor.java:179-189 | as `GetBooleanSpec` says |
| RecordCursor.PhoenixRecordCursor.GetDouble | src/main/java/com/facebook/presto/plugin/phoenix/PhoenixRecordCursor.java:239-249 | as `GetDoubleSpec` says |
| RecordCursor.PhoenixRecordCursor.IsNull | src/main/java/com/facebook/presto/plugin/phoenix/PhoenixRecordCursor.java:348-365 | as `IsNullSpec` says |
| RecordCursor.PhoenixRecordCursor.BlockFromArray | src/main/java/com/facebook/presto/plugin/phoenix/PhoenixRecordCursor.java:316-323 | the loop over the array builds the cells `ElementCells` gives |
| RecordCursor.PhoenixRecordCursor.GetObject | src/main/java/com/facebook/presto/plugin/phoenix/PhoenixRecordCursor.java:276-294 | as `GetObjectSpec` says |
| Metadata.TablesOf | src/main/java/com/facebook/presto/plugin/phoenix/PhoenixMetadata.java:130-136 | one named table for a prefix with a table name, the schema listing otherwise |
| Metadata.ListedColumns | src/main/java/com/facebook/presto/plugin/phoenix/PhoenixMetadata.java:127-150 | the listing maps exactly the visited tables that exist to their columns, and fails with IllegalArgumentException exactly when an existing table is visited twice |
| Metadata.BeginWhilePendingFails | src/main/java/com/facebook/presto/plugin/phoenix/PhoenixMetadata.java:201-237 | while an action is pending, `beginCreateTable` and `beginInsert` throw the IllegalStateException and change nothing |
| Metadata.SetRollbackRefusesOverwrite | src/main/java/com/facebook/presto/plugin/phoenix/PhoenixMetadata.java:254-257 | the action is installed only over null; a pending one is never overwritten |
| Metadata.BeginCreateTableRegistersDrop | src/main/java/com/facebook/presto/plugin/phoenix/PhoenixMetadata.java:201-208 | from idle, the table is created, the handle names it, and exactly one action is pending: dropping that handle |
| Metadata.BeginInsertRegistersNothing | src/main/java/com/facebook/presto/plugin/phoenix/PhoenixMetadata.java:228-237 | `beginInsert` leaves nothing pending, fails exactly on a missing table, and a later rollback runs nothing |
| Metadata.FinishDiscardsAction | src/main/java/com/facebook/presto/plugin/phoenix/PhoenixMetadata.java:211-247 | the finish methods clear the action without running it, and a later rollback is a no-op |
| Metadata.RollbackRunsAtMostOnce | src/main/java/com/facebook/presto/plugin/phoenix/PhoenixMetadata.java:269-272 | rollback leaves nothing pending, runs the pending action once, does nothing when idle, and a second rollback is a no-op |
| Metadata.RollbackDropsCreatedTable | src/main/java/com/facebook/presto/plugin/phoenix/PhoenixMetadata.java:217-225 | the dropped handle carries the output handle's connector, catalog, schema and table names |
| Metadata.CreateThenRollbackRestoresCatalog | src/main/java/com/facebook/presto/plugin/phoenix/PhoenixMetadata.java:201-225 | creating a new table and rolling back restores the catalog and logs that one drop |
| Metadata.DropTableGuard | src/main/java/com/facebook/presto/plugin/phoenix/PhoenixMetadata.java:191-198 | without permission PERMISSION_DENIED and no change; with it, the table is gone |
| Metadata.CreateTableGuard | src/main/java/com/facebook/presto/plugin/phoenix/PhoenixMetadata.java:181-188 | an existing table is rejected with IllegalArgumentException unless `ignoreExisting`; otherwise the table exists afterwards |
| Metadata.RollbacksBoundedByBegins | src/main/java/com/facebook/presto/plugin/phoenix/PhoenixMetadata.java:201-272 | over any sequence of calls the log only grows, and rollbacks run no more actions than `beginCreateTable` registered |
| Metadata.PhoenixMetadata.constructor | src/main/java/com/facebook/presto/plugin/phoenix/PhoenixMetadata.java:59-65 | a new metadata object is idle with nothing run |
| Metadata.PhoenixMetadata.CheckNoRollback | src/main/java/com/facebook/presto/plugin/phoenix/PhoenixMetadata.java:259-262 | succeeds exactly when idle |
| Metadata.PhoenixMetadata.SetRollback | src/main/java/com/facebook/presto/plugin/phoenix/PhoenixMetadata.java:254-257 | compare-and-set from null, as `SetRollbackSpec` says |
| Metadata.PhoenixMetadata.ClearRollback | src/main/java/com/facebook/presto/plugin/phoenix/PhoenixMetadata.java:264-267 | the action is cleared |
| Metadata.PhoenixMetadata.RollbackCreateTable | src/main/java/com/facebook/presto/plugin/phoenix/PhoenixMetadata.java:217-225 | the client drops the rebuilt handle |
| Metadata.PhoenixMetadata.Rollback | src/main/java/com/facebook/presto/plugin/phoenix/PhoenixMetadata.java:269-272 | take and clear, then run, as `RollbackSpec` says |
| Metadata.PhoenixMetadata.BeginCreateTable | src/main/java/com/facebook/presto/plugin/phoenix/PhoenixMetadata.java:201-208 | as `BeginCreateTableSpec` says |
| Metadata.PhoenixMetadata.FinishCreateTable | src/main/java/com/facebook/presto/plugin/phoenix/PhoenixMetadata.java:211-215 | clears the action |
| Metadata.PhoenixMetadata.BeginInsert | src/main/java/com/facebook/presto/plugin/phoenix/PhoenixMetadata.java:228-237 | as `BeginInsertSpec` says, changing nothing |
| Metadata.PhoenixMetadata.FinishInsert | src/main/java/com/facebook/presto/plugin/phoenix/PhoenixMetadata.java:240-247 | clears the action |
| Metadata.PhoenixMetadata.CreateTable | src/main/java/com/facebook/presto/plugin/phoenix/PhoenixMetadata.java:181-188 | as `CreateTableSpec` says |
| Metadata.PhoenixMetadata.DropTable | src/main/java/com/facebook/presto/plugin/phoenix/PhoenixMetadata.java:191-198 | as `DropTableSpec` says |
| Metadata.PhoenixMetadata.ListTableColumns | src/main/java/com/facebook/presto/plugin/phoenix/PhoenixMetadata.java:127-150 | the loop over the tables builds the entries `ListTableColumnsSpec` maps |

## Left out

- Floating point: `doubleValue()` and `floatToRawIntBits` are not computed. A DOUBLE cell holds the number object, and REAL uses the `floatBits` parameter.
- The decimal slice encoding (`encodeScaledValue`): a long decimal becomes an `EncodedDecimalCell` of its unscaled value, not the 16 bytes Presto writes.
- UTF-8 encoding of strings (`utf8Slice`): text cells hold the Java string.
- `PageBuilder.isFull` depends on Presto's byte-size accounting. It is abstracted as "at least `capacity` positions declared", with `capacity` fixed per reader.
- The page builder is modelled as fields of the reader: the declared position count and one sequence of cells per column. Block builders are not objects of their own. Presto's `PageBuilder` is not part of this model; its `build()` is taken to fail with an IllegalStateException exactly when some block's entry count differs from the declared positions (`PositionsMismatch`).
- The JDBC driver is not part of this model. `Jdbc` models the result set as a list of rows, each with the values of the selected columns and the HBase size of the row. `getObject` by label and by index fails with an SQLException when closed, before the first row, or out of range. The typed getters (`getByte`, `getShort`, `getInt`, `getLong`, `getDate`, `getTime`, `getTimestamp`, `getString`, `getBytes`, `getBigDecimal`, `getBoolean`, `getDouble`, `getFloat`) are approximated by reading the field's object. The primitive getters (`getByte`, `getShort`, `getInt`, `getLong`, `getFloat`, `getDouble`, `getBoolean`) read SQL NULL as 0 or false; the numeric ones convert any number and `getBoolean` takes only a boolean. The object getters (`getDate`, `getTime`, `getTimestamp`, `getString`, `getBytes`, `getBigDecimal`) read SQL NULL as null, which the cursor then dereferences (a NullPointerException). `getString` takes only a string, `getBytes` only bytes, the date getters only a date, and `getBigDecimal` a decimal or an integral number (with scale 0). Any other object is a driver error; a driver that converts more (`getString` of a number, say) is not modelled.
- RecordCursor.WriteObject: approximates `TypeUtils.writeNativeValue`, which is not part of this model. A null element is a null cell, a boolean, number, string or byte array of the matching Java type is written, and anything else is a ClassCastException.
- RecordCursor.WriteObject: the map branch of `writeObject` is left out. A driver array never yields a `Map` element, and a nested array element (a `List` cast that fails) is a ClassCastException.
- Values.CreateArrayFromArrayObject: an object array is returned as a fresh copy. The aliasing of the driver's own array is not modelled.
- Coercion.WriteBlock: the extra `handleSqlException` wrapping that `writeBlock` applies to a fault inside an array entry is folded into the one wrapping `getNextPage` applies, so the double wrapping (and the second, no-op close) is not modelled.
- The record cursor's constructor: connection acquisition, SQL text, HBase configuration and reflective access to the result set are left out. The model's constructor starts from an open result set.
- The page source's constructor: `phoenixClient.getResultSet` is left out, and the reader starts from an open result set.
- 64-bit wrap-around of `bytesRead` and of the nanosecond arithmetic: these are unbounded integers in the model, since neither can wrap in practice.
- Concurrency of the `AtomicReference`: calls are modelled sequentially, one at a time. The compare-and-set and get-and-set are single steps of the state.
- Metadata.ListedColumns: the IllegalArgumentException message of `ImmutableMap.Builder.build` is abbreviated to "Multiple entries with same key", and it is reported where `build()` would throw it.
- Failures of the Phoenix client (SQL errors in `createTable`, `dropTable`, `getTableNames`) are left out. Only the TableNotFoundException of `getColumns` is modelled. A rollback action's own failure therefore never surfaces.
- Metadata delegations that only forward to the client (`listSchemaNames`, `getTableLayouts`, `getColumnHandles`, `createSchema`, `dropSchema`, `addColumn`, `dropColumn`): plumbing without logic of their own.
- Table properties in `getTableMetadata` and the `requiredRowkey` flag of `getColumns`: not modelled; the columns are the catalog's.
- Logging and `printStackTrace`: no observable effect on the model.
