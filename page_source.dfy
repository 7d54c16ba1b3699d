/**
 * The batch reader (`PhoenixPageSource`): every `getNextPage` call pulls at
 * most `ROWS_PER_REQUEST` rows from the result set into a page builder, one
 * cell per column and row, and hands the buffered rows out as a page once
 * the builder is full or the result set is exhausted.
 *
 * The pure functions below describe one call on a snapshot of the reader's
 * fields (`State`); the class `PhoenixPageSource` performs the same steps in
 * place and is proved to agree with them.
 */
module PageSource {
  import opened Common
  import opened Values
  import opened Jdbc
  import Coercion

  const RowsPerRequest: nat := 4096

  datatype Column = Column(name: string, columnType: PrestoType)

  /** A built page: its position count and one block of cells per column. */
  datatype Page = Page(positionCount: nat, blocks: seq<seq<Cell>>)

  /**
   * What does not change over a reader's life: the value coercion, the
   * columns, and the position count at which the page builder reports itself
   * full. The coercion is `appendTo` for the reader's zone and float functions
   * (see `ConvertsWithAppendTo`); it is carried as a function value so that
   * the proofs about the batch loop do not unfold its cases.
   */
  datatype Config = Config(appendTo: (PrestoType, NativeValue) -> Result<Cell, Fault>, columns: seq<Column>, capacity: nat)

  /** The reader converts values with `appendTo` under `env`. */
  ghost predicate ConvertsWithAppendTo(cfg: Config, env: Env) {
    forall t, v :: cfg.appendTo(t, v) == Coercion.AppendTo(env, t, v)
  }

  /** The mutable fields of the reader, its result set and its page builder. */
  datatype State = State(
    rs: ResultSet,
    closed: bool,
    bytesRead: nat,
    nanoStart: int,
    nanoEnd: int,
    positionCount: nat,
    blocks: seq<seq<Cell>>)

  ghost predicate Consistent(cfg: Config, s: State) {
    WellFormed(s.rs) && |s.blocks| == |cfg.columns|
  }

  /** Every block holds one cell per declared position, as `PageBuilder.build` checks. */
  predicate Rectangular(s: State) {
    forall k :: 0 <= k < |s.blocks| ==> |s.blocks[k]| == s.positionCount
  }

  /**
   * Only a failed row, which closes the reader, can leave the builder with
   * a position declared but not every cell of it appended.
   */
  ghost predicate OpenIsRectangular(s: State) {
    !s.closed ==> Rectangular(s)
  }

  function EmptyBlocks(n: nat): (r: seq<seq<Cell>>)
    ensures |r| == n && forall k :: 0 <= k < n ==> r[k] == []
  {
    seq(n, _ => [])
  }

  /** `isFinished`. */
  function IsFinished(s: State): bool {
    s.closed && s.positionCount == 0
  }

  /** `getReadTimeNanos` with `now` standing for `System.nanoTime()`. */
  function ReadTimeNanos(s: State, now: int): (r: int)
    ensures s.nanoStart <= 0 ==> r == 0
    ensures s.nanoStart > 0 && s.nanoEnd != 0 ==> r == s.nanoEnd - s.nanoStart
  {
    if s.nanoStart > 0 then (if s.nanoEnd == 0 then now else s.nanoEnd) - s.nanoStart else 0
  }

  /**
   * `close`: a second call does nothing; the first sets `closed` before it
   * closes the result set, so a failing result set leaves the reader closed
   * (without an end time) and the failure escapes.
   */
  function CloseSpec(s: State, now: int): (r: (State, Option<Fault>))
    ensures r.0.closed
    ensures s.closed ==> r == (s, None)
    ensures r.1.Some? <==> !s.closed && s.rs.closeFails
    ensures r.1.Some? ==> r.1.value == CloseFailed && r.0 == s.(closed := true)
    ensures !s.closed && r.1.None? ==> r.0 == s.(closed := true, rs := s.rs.(isClosed := true), nanoEnd := now)
  {
    if s.closed then (s, None)
    else match CloseResultSet(s.rs)
      case Err(f) => (s.(closed := true), Some(f))
      case Ok(rs) => (s.(closed := true, rs := rs, nanoEnd := now), None)
  }

  /**
   * `handleSqlException`: closes the reader and wraps the error; a failure
   * of that close is attached to the error as suppressed.
   */
  function HandleSqlExceptionSpec(s: State, e: Fault, now: int): (r: (State, Failure))
    ensures r.0.closed
    ensures r.0 == CloseSpec(s, now).0
    ensures r.1 == Wrapped(e, CloseSpec(s, now).1)
  {
    var (closed, closeFailure) := CloseSpec(s, now);
    (closed, Wrapped(e, closeFailure))
  }

  /** The cell `appendTo` writes for one column of the current row. */
  function ColumnCell(cfg: Config, column: Column, rs: ResultSet): (r: Result<Cell, Fault>)
    requires WellFormed(rs)
  {
    match GetObjectByLabel(rs, column.name)
    case Err(f) => Err(f)
    case Ok(v) => cfg.appendTo(column.columnType, v)
  }

  /** The cell of column `k` in the `j`-th row after the result set's current position (`j` from 0). */
  function CellOfRow(cfg: Config, rs: ResultSet, k: nat, j: nat): Result<Cell, Fault>
    requires WellFormed(rs) && k < |cfg.columns| && rs.position + j < |rs.rows|
  {
    ColumnCell(cfg, cfg.columns[k], rs.(position := rs.position + j + 1))
  }

  /**
   * With `appendTo` as the coercion, a column's cell is what `appendTo`
   * makes of the current row's value under the column's name, and a
   * column name missing from the result set is a driver error.
   */
  lemma ColumnCellIsAppendTo(cfg: Config, env: Env, column: Column, rs: ResultSet)
    requires WellFormed(rs) && ConvertsWithAppendTo(cfg, env)
    ensures GetObjectByLabel(rs, column.name).Err? ==> ColumnCell(cfg, column, rs) == Err(DriverError)
    ensures GetObjectByLabel(rs, column.name).Ok? ==>
      ColumnCell(cfg, column, rs) == Coercion.AppendTo(env, column.columnType, GetObjectByLabel(rs, column.name).value)
  {
  }

  /**
   * The inner loop of `getNextPage` from column `c` on: each column's value
   * is fetched by name and appended to that column's block; the first
   * failure stops the row with the earlier columns already appended.
   */
  function AppendColumns(cfg: Config, columns: seq<Column>, rs: ResultSet, blocks: seq<seq<Cell>>, c: nat)
    : (r: (seq<seq<Cell>>, Option<Fault>))
    requires WellFormed(rs) && |blocks| == |columns| && c <= |columns|
    ensures |r.0| == |blocks|
    decreases |columns| - c
  {
    if c == |columns| then (blocks, None)
    else match ColumnCell(cfg, columns[c], rs)
      case Err(f) => (blocks, Some(f))
      case Ok(cell) => AppendColumns(cfg, columns, rs, blocks[c := blocks[c] + [cell]], c + 1)
  }

  /**
   * A completed row adds exactly one cell to each column from `c` on, the
   * cell `appendTo` makes of that column's value; a failed row adds at most
   * one cell to each column.
   */
  lemma {:induction false} AppendColumnsCells(cfg: Config, columns: seq<Column>, rs: ResultSet, blocks: seq<seq<Cell>>, c: nat)
    requires WellFormed(rs) && |blocks| == |columns| && c <= |columns|
    ensures var r := AppendColumns(cfg, columns, rs, blocks, c);
      && |r.0| == |blocks|
      && (forall k :: 0 <= k < c ==> r.0[k] == blocks[k])
      && (r.1.None? ==> forall k :: c <= k < |blocks| ==>
            ColumnCell(cfg, columns[k], rs).Ok? && r.0[k] == blocks[k] + [ColumnCell(cfg, columns[k], rs).value])
      && (r.1.Some? ==> forall k :: c <= k < |blocks| ==>
            r.0[k] == blocks[k] || (ColumnCell(cfg, columns[k], rs).Ok? && r.0[k] == blocks[k] + [ColumnCell(cfg, columns[k], rs).value]))
    decreases |columns| - c
  {
    if c < |columns| {
      match ColumnCell(cfg, columns[c], rs)
      case Err(f) =>
      case Ok(cell) =>
        AppendColumnsCells(cfg, columns, rs, blocks[c := blocks[c] + [cell]], c + 1);
    }
  }

  /**
   * The bounded loop of `getNextPage` from iteration `i` on, on an open
   * reader: `next()`, then on a row its size is added to `bytesRead`, a
   * position is declared and the columns appended; on the end of the rows
   * the reader closes and the loop stops. A fault is handed back with the
   * state it left behind.
   */
  function ReadBatch(cfg: Config, s: State, i: nat, now: int): (r: (State, Option<Fault>))
    requires Consistent(cfg, s) && i <= RowsPerRequest
    ensures Consistent(cfg, r.0)
    ensures r.0.rs.rows == s.rs.rows && r.0.rs.labels == s.rs.labels
    ensures s.rs.position <= r.0.rs.position <= s.rs.position + (RowsPerRequest - i)
    ensures r.0.positionCount == s.positionCount + (r.0.rs.position - s.rs.position)
    decreases RowsPerRequest - i, 2
  {
    if i == RowsPerRequest then (s, None) else ReadIteration(cfg, s, i, now)
  }

  /** Iteration `i` of the loop and the iterations after it. */
  function ReadIteration(cfg: Config, s: State, i: nat, now: int): (r: (State, Option<Fault>))
    requires Consistent(cfg, s) && i < RowsPerRequest
    ensures Consistent(cfg, r.0)
    ensures r.0.rs.rows == s.rs.rows && r.0.rs.labels == s.rs.labels
    ensures s.rs.position <= r.0.rs.position <= s.rs.position + (RowsPerRequest - i)
    ensures r.0.positionCount == s.positionCount + (r.0.rs.position - s.rs.position)
    decreases RowsPerRequest - i, 1
  {
    match Next(s.rs)
    case Err(f) => (s, Some(f))
    case Ok((rs, more)) =>
      if !more then CloseSpec(s.(rs := rs), now) else ReadRowThenBatch(cfg, s.(rs := rs), i, now)
  }

  /** A row of iteration `i` once `next()` returned true, then the iterations after it unless the row failed. */
  function ReadRowThenBatch(cfg: Config, s: State, i: nat, now: int): (r: (State, Option<Fault>))
    requires Consistent(cfg, s) && 0 < s.rs.position && i < RowsPerRequest
    ensures Consistent(cfg, r.0)
    ensures r.0.rs.rows == s.rs.rows && r.0.rs.labels == s.rs.labels
    ensures s.rs.position <= r.0.rs.position <= s.rs.position + (RowsPerRequest - i - 1)
    ensures r.0.positionCount == s.positionCount + 1 + (r.0.rs.position - s.rs.position)
    decreases RowsPerRequest - i, 0
  {
    var (t, fault) := ReadRow(cfg, s);
    if fault.Some? then (t, fault) else ReadBatch(cfg, t, i + 1, now)
  }

  /**
   * One row after `next()` returned true: its size is added to `bytesRead`,
   * a position is declared and every column's cell appended.
   */
  function ReadRow(cfg: Config, s: State): (r: (State, Option<Fault>))
    requires Consistent(cfg, s) && 0 < s.rs.position
    ensures Consistent(cfg, r.0)
    ensures r.0 == s.(bytesRead := s.bytesRead + s.rs.rows[s.rs.position - 1].size,
                      positionCount := s.positionCount + 1, blocks := r.0.blocks)
    ensures (r.0.blocks, r.1) == AppendColumns(cfg, cfg.columns, s.rs, s.blocks, 0)
  {
    var (blocks, fault) := AppendColumns(cfg, cfg.columns, s.rs, s.blocks, 0);
    (s.(bytesRead := s.bytesRead + s.rs.rows[s.rs.position - 1].size, positionCount := s.positionCount + 1,
        blocks := blocks), fault)
  }

  /** `pageBuilder.isFull()`. */
  predicate IsFull(cfg: Config, s: State) {
    s.positionCount >= cfg.capacity
  }

  /**
   * The tail of `getNextPage`: no page while the builder is empty, or while
   * the reader is open and the builder not full; otherwise the page of all
   * buffered rows, and the builder is reset. `pageBuilder.build()` runs
   * outside the `try`: when a block's entry count differs from the declared
   * positions its IllegalStateException escapes unwrapped, and nothing is
   * reset.
   */
  function Emit(cfg: Config, s: State): (r: (State, Result<Option<Page>, Failure>))
    requires |s.blocks| == |cfg.columns|
    ensures r.0 == s || r.0 == s.(positionCount := 0, blocks := EmptyBlocks(|cfg.columns|))
  {
    if s.positionCount == 0 || (!s.closed && !IsFull(cfg, s)) then (s, Ok(None))
    else if !Rectangular(s) then (s, Err(PositionsMismatch))
    else (s.(positionCount := 0, blocks := EmptyBlocks(|cfg.columns|)), Ok(Some(Page(s.positionCount, s.blocks))))
  }

  /** `getNextPage`: the new state and the page, no page (null), or the failure. */
  function NextPageSpec(cfg: Config, s: State, now: int): (r: (State, Result<Option<Page>, Failure>))
    requires Consistent(cfg, s)
    ensures Consistent(cfg, r.0)
    ensures r.0.rs.rows == s.rs.rows && s.rs.position <= r.0.rs.position
  {
    var started := if s.nanoStart == 0 then s.(nanoStart := now) else s;
    if started.closed then Emit(cfg, started)
    else
      var (read, fault) := ReadBatch(cfg, started, 0, now);
      match fault
      case Some(f) =>
        var (closed, failure) := HandleSqlExceptionSpec(read, f, now);
        (closed, Err(failure))
      case None => Emit(cfg, read)
  }

  /** `bytesRead` grows by exactly the sizes of the rows `ReadBatch` reads. */
  lemma {:induction false} ReadBatchBytes(cfg: Config, s: State, i: nat, now: int)
    requires Consistent(cfg, s) && i <= RowsPerRequest
    ensures var r := ReadBatch(cfg, s, i, now).0;
      r.bytesRead == s.bytesRead + TotalSize(s.rs.rows[s.rs.position..r.rs.position])
    decreases RowsPerRequest - i
  {
    var r := ReadBatch(cfg, s, i, now).0;
    var p := s.rs.position;
    if i < RowsPerRequest && Next(s.rs).Ok? && Next(s.rs).value.1 {
      assert r == ReadIteration(cfg, s, i, now).0 == ReadRowThenBatch(cfg, s.(rs := Next(s.rs).value.0), i, now).0;
      var (t, fault) := ReadRow(cfg, s.(rs := Next(s.rs).value.0));
      if fault.Some? {
        assert s.rs.rows[p..p + 1] == [s.rs.rows[p]];
      } else {
        ReadBatchBytes(cfg, t, i + 1, now);
        assert s.rs.rows[p..r.rs.position][1..] == s.rs.rows[p + 1..r.rs.position];
      }
    } else {
      assert s.rs.rows[p..p] == [];
    }
  }

  /**
   * A run of `ReadBatch` that does not fail adds one cell per row read to
   * every column and keeps the cells that were there.
   */
  lemma {:induction false} ReadBatchBlocks(cfg: Config, s: State, i: nat, now: int)
    requires Consistent(cfg, s) && i <= RowsPerRequest
    ensures var r := ReadBatch(cfg, s, i, now);
      r.1.None? ==> forall k :: 0 <= k < |s.blocks| ==>
        && |r.0.blocks[k]| == |s.blocks[k]| + (r.0.rs.position - s.rs.position)
        && s.blocks[k] <= r.0.blocks[k]
    decreases RowsPerRequest - i
  {
    if i < RowsPerRequest && s.rs.position < |s.rs.rows| {
      ReadBatchRowCase(cfg, s, i, now);
      var rs := s.rs.(position := s.rs.position + 1);
      var (t, fault) := ReadRow(cfg, s.(rs := rs));
      AppendColumnsCells(cfg, cfg.columns, rs, s.blocks, 0);
      if fault.None? {
        ReadBatchBlocks(cfg, t, i + 1, now);
      }
    } else {
      ReadBatchNoRow(cfg, s, i, now);
    }
  }

  /**
   * A run of `ReadBatch` that does not fail appends, to every column, the
   * cells of the rows it reads, in the order it reads them.
   */
  lemma {:induction false} ReadBatchCells(cfg: Config, s: State, i: nat, now: int)
    requires Consistent(cfg, s) && i <= RowsPerRequest
    ensures var r := ReadBatch(cfg, s, i, now);
      r.1.None? ==>
        && (forall k :: 0 <= k < |s.blocks| ==> |r.0.blocks[k]| == |s.blocks[k]| + (r.0.rs.position - s.rs.position))
        && (forall k, j :: 0 <= k < |s.blocks| && 0 <= j < r.0.rs.position - s.rs.position ==>
              CellOfRow(cfg, s.rs, k, j) == Ok(r.0.blocks[k][|s.blocks[k]| + j]))
    decreases RowsPerRequest - i
  {
    if i < RowsPerRequest && s.rs.position < |s.rs.rows| {
      ReadBatchRowCase(cfg, s, i, now);
      var (t, fault) := ReadRow(cfg, s.(rs := s.rs.(position := s.rs.position + 1)));
      var r := ReadBatch(cfg, t, i + 1, now);
      if fault.None? && r.1.None? {
        FirstRowCells(cfg, s);
        ReadBatchBlocks(cfg, t, i + 1, now);
        ReadBatchCells(cfg, t, i + 1, now);
        CellsAfterFirstRow(cfg, s, t, r.0);
      }
    } else {
      ReadBatchNoRow(cfg, s, i, now);
    }
  }

  /** When a row is there to read, `ReadBatch` reads it and, unless it fails, carries on with the next iteration. */
  lemma ReadBatchRowCase(cfg: Config, s: State, i: nat, now: int)
    requires Consistent(cfg, s) && i < RowsPerRequest && s.rs.position < |s.rs.rows|
    ensures var (t, fault) := ReadRow(cfg, s.(rs := s.rs.(position := s.rs.position + 1)));
      ReadBatch(cfg, s, i, now) == if fault.Some? then (t, fault) else ReadBatch(cfg, t, i + 1, now)
  {
    assert ReadBatch(cfg, s, i, now) == ReadIteration(cfg, s, i, now)
      == ReadRowThenBatch(cfg, s.(rs := s.rs.(position := s.rs.position + 1)), i, now);
  }

  /** Without a row to read, `ReadBatch` moves neither the result set nor the builder. */
  lemma ReadBatchNoRow(cfg: Config, s: State, i: nat, now: int)
    requires Consistent(cfg, s) && i <= RowsPerRequest
    requires i == RowsPerRequest || s.rs.position >= |s.rs.rows|
    ensures ReadBatch(cfg, s, i, now).0.rs.position == s.rs.position
    ensures ReadBatch(cfg, s, i, now).0.blocks == s.blocks
  {
    if i < RowsPerRequest {
      assert ReadBatch(cfg, s, i, now) == ReadIteration(cfg, s, i, now);
    }
  }

  /** A row read without failure adds to each column the cell of the row after the current position. */
  lemma FirstRowCells(cfg: Config, s: State)
    requires Consistent(cfg, s) && s.rs.position < |s.rs.rows|
    ensures var (t, fault) := ReadRow(cfg, s.(rs := s.rs.(position := s.rs.position + 1)));
      fault.None? ==> forall k :: 0 <= k < |s.blocks| ==>
        CellOfRow(cfg, s.rs, k, 0).Ok? && t.blocks[k] == s.blocks[k] + [CellOfRow(cfg, s.rs, k, 0).value]
  {
    AppendColumnsCells(cfg, cfg.columns, s.rs.(position := s.rs.position + 1), s.blocks, 0);
  }

  /** The induction step of `ReadBatchCells`: the first row's cells, then the cells of the rows after it. */
  lemma CellsAfterFirstRow(cfg: Config, s: State, t: State, r: State)
    requires Consistent(cfg, s) && Consistent(cfg, t) && Consistent(cfg, r)
    requires s.rs.position < |s.rs.rows| && t.rs == s.rs.(position := s.rs.position + 1)
    requires r.rs.rows == s.rs.rows && t.rs.position <= r.rs.position
    requires forall k :: 0 <= k < |s.blocks| ==>
      CellOfRow(cfg, s.rs, k, 0).Ok? && t.blocks[k] == s.blocks[k] + [CellOfRow(cfg, s.rs, k, 0).value]
    requires forall k :: 0 <= k < |t.blocks| ==> |r.blocks[k]| == |t.blocks[k]| + (r.rs.position - t.rs.position)
    requires forall k :: 0 <= k < |t.blocks| ==> t.blocks[k] <= r.blocks[k]
    requires forall k, j :: 0 <= k < |t.blocks| && 0 <= j < r.rs.position - t.rs.position ==>
      CellOfRow(cfg, t.rs, k, j) == Ok(r.blocks[k][|t.blocks[k]| + j])
    ensures forall k :: 0 <= k < |s.blocks| ==> |r.blocks[k]| == |s.blocks[k]| + (r.rs.position - s.rs.position)
    ensures forall k, j :: 0 <= k < |s.blocks| && 0 <= j < r.rs.position - s.rs.position ==>
      CellOfRow(cfg, s.rs, k, j) == Ok(r.blocks[k][|s.blocks[k]| + j])
  {
    forall k, j | 0 <= k < |s.blocks| && 0 <= j < r.rs.position - s.rs.position
      ensures CellOfRow(cfg, s.rs, k, j) == Ok(r.blocks[k][|s.blocks[k]| + j])
    {
      if j == 0 {
        assert r.blocks[k][|s.blocks[k]|] == t.blocks[k][|s.blocks[k]|];
      } else {
        assert t.rs.(position := t.rs.position + (j - 1) + 1) == s.rs.(position := s.rs.position + j + 1);
        assert CellOfRow(cfg, s.rs, k, j) == CellOfRow(cfg, t.rs, k, j - 1);
      }
    }
  }

  /**
   * The loop stops early only on the first `next()` that returns false: a
   * run that neither fails nor closes the reader reads a full batch, and one
   * that closes it has read every row and closed the result set.
   */
  lemma {:induction false} ReadBatchStops(cfg: Config, s: State, i: nat, now: int)
    requires Consistent(cfg, s) && i <= RowsPerRequest && !s.closed
    ensures var r := ReadBatch(cfg, s, i, now);
      && (r.1.None? && !r.0.closed ==> r.0.rs.position == s.rs.position + (RowsPerRequest - i))
      && (r.1.None? && r.0.closed ==> r.0.rs.position == |s.rs.rows| && r.0.rs.isClosed && r.0.nanoEnd == now)
    decreases RowsPerRequest - i
  {
    if i < RowsPerRequest && Next(s.rs).Ok? && Next(s.rs).value.1 {
      assert ReadBatch(cfg, s, i, now) == ReadRowThenBatch(cfg, s.(rs := Next(s.rs).value.0), i, now);
      var (t, fault) := ReadRow(cfg, s.(rs := Next(s.rs).value.0));
      if fault.None? {
        ReadBatchStops(cfg, t, i + 1, now);
      }
    }
  }

  /**
   * A closed reader whose buffered rows are whole hands them out in one
   * page, if there are any, and is finished after that call.
   */
  lemma ClosedReaderFinishes(cfg: Config, s: State, now: int)
    requires Consistent(cfg, s) && s.closed && Rectangular(s)
    ensures var (t, r) := NextPageSpec(cfg, s, now);
      && r.Ok? && IsFinished(t)
      && (r.value.Some? <==> s.positionCount > 0)
      && (r.value.Some? ==> r.value.value == Page(s.positionCount, s.blocks))
  {
  }

  /**
   * One call reads at most `ROWS_PER_REQUEST` rows, never moves the result
   * set backwards, and adds exactly the sizes of the rows read to
   * `bytesRead`, which therefore never decreases.
   */
  lemma AtMostRowsPerRequest(cfg: Config, s: State, now: int)
    requires Consistent(cfg, s)
    ensures var r := NextPageSpec(cfg, s, now).0;
      && s.rs.position <= r.rs.position <= s.rs.position + RowsPerRequest
      && r.bytesRead == s.bytesRead + TotalSize(s.rs.rows[s.rs.position..r.rs.position])
      && r.bytesRead >= s.bytesRead
  {
    var started := if s.nanoStart == 0 then s.(nanoStart := now) else s;
    var r := NextPageSpec(cfg, s, now).0;
    if started.closed {
      assert r.rs == s.rs && r.bytesRead == s.bytesRead;
      assert s.rs.rows[s.rs.position..s.rs.position] == [];
    } else {
      var (read, fault) := ReadBatch(cfg, started, 0, now);
      ReadBatchBytes(cfg, started, 0, now);
      assert r.rs.rows == read.rs.rows && r.rs.position == read.rs.position && r.bytesRead == read.bytesRead;
    }
  }

  /**
   * No empty page: a page is handed out only when it holds a row, and then
   * only once the reader is closed or the builder is full. An open reader
   * whose builder is not full returns no page.
   */
  lemma NoEmptyPage(cfg: Config, s: State, now: int)
    requires Consistent(cfg, s)
    ensures var (t, r) := NextPageSpec(cfg, s, now);
      && (r.Ok? && r.value.Some? ==> r.value.value.positionCount > 0 && (t.closed || r.value.value.positionCount >= cfg.capacity))
      && (r.Ok? && r.value.None? ==> t.positionCount == 0 || (!t.closed && t.positionCount < cfg.capacity))
  {
  }

  /**
   * A page taken by a call that started in `s` and left the reader in `t`
   * holds every buffered row: the rows buffered in `s` followed by those
   * read in the call, one cell per row in each column, the `j`-th row read
   * giving the cells at position `s.positionCount + j`; and the builder is
   * empty again.
   */
  ghost predicate HoldsBufferedRows(cfg: Config, s: State, t: State, page: Page)
    requires Consistent(cfg, s) && Consistent(cfg, t) && t.rs.rows == s.rs.rows && s.rs.position <= t.rs.position
  {
    && page.positionCount == s.positionCount + (t.rs.position - s.rs.position)
    && |page.blocks| == |cfg.columns|
    && (forall k :: 0 <= k < |page.blocks| ==>
          |page.blocks[k]| == page.positionCount && s.blocks[k] <= page.blocks[k] && |s.blocks[k]| == s.positionCount)
    && (forall k, j :: 0 <= k < |page.blocks| && 0 <= j < t.rs.position - s.rs.position ==>
          CellOfRow(cfg, s.rs, k, j) == Ok(page.blocks[k][s.positionCount + j]))
    && t.positionCount == 0 && (forall k :: 0 <= k < |t.blocks| ==> t.blocks[k] == [])
  }

  /** A page holds every buffered row (`HoldsBufferedRows`). */
  lemma PageHoldsBufferedRows(cfg: Config, s: State, now: int)
    requires Consistent(cfg, s)
    ensures var (t, r) := NextPageSpec(cfg, s, now);
      r.Ok? && r.value.Some? ==> HoldsBufferedRows(cfg, s, t, r.value.value)
  {
    var started := if s.nanoStart == 0 then s.(nanoStart := now) else s;
    if started.closed {
      assert NextPageSpec(cfg, s, now) == Emit(cfg, started);
      EmitHoldsCells(cfg, started, started);
      var (t, r) := Emit(cfg, started);
      if r.Ok? && r.value.Some? {
        SameBuffer(cfg, s, started, t, r.value.value);
      }
    } else {
      var (read, fault) := ReadBatch(cfg, started, 0, now);
      if fault.None? {
        assert NextPageSpec(cfg, s, now) == Emit(cfg, read);
        ReadBatchBlocks(cfg, started, 0, now);
        ReadBatchCells(cfg, started, 0, now);
        EmitHoldsCells(cfg, started, read);
        var (t, r) := Emit(cfg, read);
        if r.Ok? && r.value.Some? {
          SameBuffer(cfg, s, started, t, r.value.value);
        }
      }
    }
  }

  /** `HoldsBufferedRows` looks only at the result set and the builder of the state a call starts in. */
  lemma SameBuffer(cfg: Config, s: State, s': State, t: State, page: Page)
    requires Consistent(cfg, s) && Consistent(cfg, t) && t.rs.rows == s.rs.rows && s.rs.position <= t.rs.position
    requires s'.rs == s.rs && s'.blocks == s.blocks && s'.positionCount == s.positionCount
    requires HoldsBufferedRows(cfg, s', t, page)
    ensures HoldsBufferedRows(cfg, s, t, page)
  {
  }

  /** `PageHoldsBufferedRows` for the state the row loop left behind. */
  lemma EmitHoldsCells(cfg: Config, s: State, read: State)
    requires Consistent(cfg, s) && Consistent(cfg, read)
    requires read.rs.rows == s.rs.rows && s.rs.position <= read.rs.position
    requires read.positionCount == s.positionCount + (read.rs.position - s.rs.position)
    requires forall k :: 0 <= k < |s.blocks| ==>
      s.blocks[k] <= read.blocks[k] && |read.blocks[k]| == |s.blocks[k]| + (read.rs.position - s.rs.position)
    requires forall k, j :: 0 <= k < |s.blocks| && 0 <= j < read.rs.position - s.rs.position ==>
      CellOfRow(cfg, s.rs, k, j) == Ok(read.blocks[k][|s.blocks[k]| + j])
    ensures var (t, r) := Emit(cfg, read);
      r.Ok? && r.value.Some? ==> HoldsBufferedRows(cfg, s, t, r.value.value)
  {
  }

  /** A successful call leaves every block with one cell per declared position. */
  lemma StaysRectangular(cfg: Config, s: State, now: int)
    requires Consistent(cfg, s) && Rectangular(s)
    ensures NextPageSpec(cfg, s, now).1.Ok? ==> Rectangular(NextPageSpec(cfg, s, now).0)
  {
    var started := if s.nanoStart == 0 then s.(nanoStart := now) else s;
    if !started.closed {
      var (read, fault) := ReadBatch(cfg, started, 0, now);
      if fault.None? {
        assert NextPageSpec(cfg, s, now) == Emit(cfg, read);
        ReadBatchBlocks(cfg, started, 0, now);
        assert Rectangular(read);
      }
    }
  }

  /**
   * Once the final partial page is flushed the reader is finished, and every
   * later call returns no page and leaves it finished.
   */
  lemma FinishedAfterFlush(cfg: Config, s: State, now: int, later: int)
    requires Consistent(cfg, s)
    ensures var (t, r) := NextPageSpec(cfg, s, now);
      r.Ok? && r.value.Some? && t.closed ==> IsFinished(t)
    ensures IsFinished(s) ==>
      var (t, r) := NextPageSpec(cfg, s, later);
      r == Ok(None) && IsFinished(t) && t.rs == s.rs && t.bytesRead == s.bytesRead
  {
  }

  /**
   * A reader closed by a row that failed partway never finishes: every later
   * call fails in `build()` and leaves the builder as it is.
   */
  lemma FailedRowNeverFinishes(cfg: Config, s: State, now: int)
    requires Consistent(cfg, s) && s.closed && s.positionCount > 0 && !Rectangular(s)
    ensures var (t, r) := NextPageSpec(cfg, s, now);
      && r == Err(PositionsMismatch) && !IsFinished(t)
      && t.positionCount == s.positionCount && t.blocks == s.blocks && t.rs == s.rs
  {
  }

  /**
   * A failure while reading leaves the reader closed, and the error comes out
   * wrapped, carrying at most the failure of that close.
   */
  lemma FailureCloses(cfg: Config, s: State, now: int)
    requires Consistent(cfg, s)
    ensures var (t, r) := NextPageSpec(cfg, s, now);
      r.Err? && r.error.Wrapped? ==> t.closed && (r.error.suppressed.Some? ==> r.error.suppressed == Some(CloseFailed))
  {
  }

  /**
   * The only failure that is not wrapped is `build()`'s, and it needs a
   * builder already left with a partly appended row, which it keeps.
   */
  lemma BuildFailsOnlyOnPartialRow(cfg: Config, s: State, now: int)
    requires Consistent(cfg, s)
    ensures var (t, r) := NextPageSpec(cfg, s, now);
      r.Err? && !r.error.Wrapped? ==>
        r.error == PositionsMismatch && !Rectangular(s) && !Rectangular(t) && t.positionCount > 0
  {
    var started := if s.nanoStart == 0 then s.(nanoStart := now) else s;
    if !started.closed {
      var (read, fault) := ReadBatch(cfg, started, 0, now);
      if fault.None? {
        assert NextPageSpec(cfg, s, now) == Emit(cfg, read);
        ReadBatchBlocks(cfg, started, 0, now);
      }
    }
  }

  /**
   * An open reader's builder stays rectangular from call to call, and so
   * every failure of a reader in that state, `build()`'s included, leaves it
   * closed.
   */
  lemma OpenReaderIsRectangular(cfg: Config, s: State, now: int)
    requires Consistent(cfg, s) && OpenIsRectangular(s)
    ensures var (t, r) := NextPageSpec(cfg, s, now);
      OpenIsRectangular(t) && (r.Err? ==> t.closed)
  {
    var started := if s.nanoStart == 0 then s.(nanoStart := now) else s;
    if !started.closed {
      ReadBatchBlocks(cfg, started, 0, now);
    }
  }

  /** `close` is idempotent, and a failed close still leaves the reader closed. */
  lemma CloseIdempotent(s: State, now: int, later: int)
    ensures CloseSpec(s, now).0.closed
    ensures CloseSpec(CloseSpec(s, now).0, later) == (CloseSpec(s, now).0, None)
  {
  }

  /**
   * The reader. The result set and the page builder's declared positions
   * and blocks are fields of it, reassigned as the reader works.
   */
  class PhoenixPageSource {
    const cfg: Config
    var rs: ResultSet
    var closed: bool
    var bytesRead: nat
    var nanoStart: int
    var nanoEnd: int
    var positionCount: nat
    var blocks: seq<seq<Cell>>

    function Snapshot(): State
      reads this
    {
      State(rs, closed, bytesRead, nanoStart, nanoEnd, positionCount, blocks)
    }

    ghost predicate Valid()
      reads this
    {
      Consistent(cfg, Snapshot())
    }

    /** A reader over a result set the client has just opened. */
    constructor (env: Env, columns: seq<Column>, capacity: nat, resultSet: ResultSet)
      requires WellFormed(resultSet)
      ensures Valid()
      ensures cfg.columns == columns && cfg.capacity == capacity
      ensures ConvertsWithAppendTo(cfg, env)
      ensures Snapshot() == State(resultSet, false, 0, 0, 0, 0, EmptyBlocks(|columns|))
    {
      cfg := Config((t, v) => Coercion.AppendTo(env, t, v), columns, capacity);
      rs := resultSet;
      closed := false;
      bytesRead := 0;
      nanoStart := 0;
      nanoEnd := 0;
      positionCount := 0;
      blocks := EmptyBlocks(|columns|);
    }

    function GetCompletedBytes(): (r: nat)
      reads this
      ensures r == Snapshot().bytesRead
    {
      bytesRead
    }

    function GetReadTimeNanos(now: int): (r: int)
      reads this
      ensures r == ReadTimeNanos(Snapshot(), now)
    {
      if nanoStart > 0 then (if nanoEnd == 0 then now else nanoEnd) - nanoStart else 0
    }

    function IsFinishedNow(): (r: bool)
      reads this
      ensures r == IsFinished(Snapshot())
    {
      closed && positionCount == 0
    }

    /** `close`; the fault is the RuntimeException it throws when the result set fails to close. */
    method Close(now: int) returns (fault: Option<Fault>)
      modifies this
      ensures (Snapshot(), fault) == CloseSpec(old(Snapshot()), now)
    {
      if closed {
        return None;
      }
      closed := true;
      match CloseResultSet(rs) {
        case Err(f) =>
          return Some(f);
        case Ok(closedSet) =>
          rs := closedSet;
      }
      nanoEnd := now;
      return None;
    }

    method HandleSqlException(e: Fault, now: int) returns (failure: Failure)
      modifies this
      ensures (Snapshot(), failure) == HandleSqlExceptionSpec(old(Snapshot()), e, now)
    {
      var closeFailure := Close(now);
      failure := Wrapped(e, closeFailure);
    }

    /** The column loop for the current row. */
    method AppendRow() returns (fault: Option<Fault>)
      requires Valid() && 0 < rs.position
      modifies this
      ensures Snapshot() == old(Snapshot()).(blocks := blocks)
      ensures Valid()
      ensures (blocks, fault) == AppendColumns(cfg, cfg.columns, rs, old(blocks), 0)
    {
      var column := 0;
      while column < |cfg.columns|
        invariant 0 <= column <= |cfg.columns| && Valid()
        invariant AppendColumns(cfg, cfg.columns, rs, blocks, column) == AppendColumns(cfg, cfg.columns, rs, old(blocks), 0)
        invariant Snapshot() == old(Snapshot()).(blocks := blocks)
      {
        var cell := ColumnCell(cfg, cfg.columns[column], rs);
        if cell.Err? {
          return Some(cell.error);
        }
        blocks := blocks[column := blocks[column] + [cell.value]];
        column := column + 1;
      }
      return None;
    }

    /** The body of the row loop once `next()` has returned true. */
    method ReadRowInPlace() returns (fault: Option<Fault>)
      requires Valid() && 0 < rs.position
      modifies this
      ensures Valid()
      ensures (Snapshot(), fault) == ReadRow(cfg, old(Snapshot()))
    {
      bytesRead := bytesRead + rs.rows[rs.position - 1].size;
      positionCount := positionCount + 1;
      fault := AppendRow();
    }

    /** The bounded row loop of `getNextPage` on an open reader. */
    method ReadBatchInPlace(now: int) returns (fault: Option<Fault>)
      requires Valid() && !closed
      modifies this
      ensures (Snapshot(), fault) == ReadBatch(cfg, old(Snapshot()), 0, now)
    {
      ghost var batch := ReadBatch(cfg, Snapshot(), 0, now);
      var i := 0;
      while i < RowsPerRequest
        invariant 0 <= i <= RowsPerRequest && Valid() && !closed
        invariant ReadBatch(cfg, Snapshot(), i, now) == batch
      {
        var stopped;
        fault, stopped := ReadStep(i, now, batch);
        if stopped {
          return;
        }
        i := i + 1;
      }
      fault := None;
    }

    /** One iteration of the row loop: `next()`, then the row or the close. */
    method ReadStep(i: nat, now: int, ghost batch: (State, Option<Fault>)) returns (fault: Option<Fault>, stopped: bool)
      requires Valid() && !closed && i < RowsPerRequest
      requires ReadBatch(cfg, Snapshot(), i, now) == batch
      modifies this
      ensures Valid()
      ensures !stopped ==> !closed && ReadBatch(cfg, Snapshot(), i + 1, now) == batch
      ensures stopped ==> (Snapshot(), fault) == batch
    {
      var next := Next(rs);
      if next.Err? {
        return Some(next.error), true;
      }
      rs := next.value.0;
      if !next.value.1 {
        fault := Close(now);
        return fault, true;
      }
      ghost var row := ReadRowThenBatch(cfg, Snapshot(), i, now);
      fault := ReadRowInPlace();
      stopped := fault.Some?;
    }

    method GetNextPage(now: int) returns (r: Result<Option<Page>, Failure>)
      requires Valid()
      modifies this
      ensures Valid()
      ensures (Snapshot(), r) == NextPageSpec(cfg, old(Snapshot()), now)
    {
      if nanoStart == 0 {
        nanoStart := now;
      }
      if !closed {
        var fault := ReadBatchInPlace(now);
        if fault.Some? {
          var failure := HandleSqlException(fault.value, now);
          return Err(failure);
        }
      }
      if positionCount == 0 || (!closed && positionCount < cfg.capacity) {
        return Ok(None);
      }
      if !Rectangular(Snapshot()) {
        return Err(PositionsMismatch);
      }
      var page := Page(positionCount, blocks);
      positionCount := 0;
      blocks := EmptyBlocks(|cfg.columns|);
      return Ok(Some(page));
    }
  }
}
