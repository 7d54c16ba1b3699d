/**
 * The JDBC result set both readers pull from, reduced to what they use:
 * `next()`, the current row's values by name or by 1-based index, the HBase
 * size of the current row, and `close()`.
 */
module Jdbc {
  import opened Common
  import opened Values

  /** One row of the scan: a value per selected column, and `getTotalSizeOfCells` of its HBase result. */
  datatype Row = Row(values: seq<NativeValue>, size: nat)

  /**
   * A result set over a fixed list of rows. `failsAfterRows` makes the
   * `next()` after the last row throw an SQLException instead of returning
   * false; `closeFails` makes `close()` throw one.
   */
  datatype ResultSet = ResultSet(
    labels: seq<string>,
    rows: seq<Row>,
    failsAfterRows: bool,
    closeFails: bool,
    /** rows handed out by `next()` so far; the current row is `rows[position - 1]` */
    position: nat,
    isClosed: bool)

  ghost predicate WellFormed(rs: ResultSet) {
    && rs.position <= |rs.rows|
    && forall i :: 0 <= i < |rs.rows| ==> |rs.rows[i].values| == |rs.labels|
  }

  /** `next()`: the result set moved on, and whether there is a current row. */
  function Next(rs: ResultSet): (r: Result<(ResultSet, bool), Fault>)
    ensures r.Err? <==> rs.position >= |rs.rows| && rs.failsAfterRows
    ensures r.Err? ==> r.error == DriverError
    ensures r.Ok? && r.value.1 ==> r.value.0 == rs.(position := rs.position + 1) && rs.position < |rs.rows|
    ensures r.Ok? && !r.value.1 ==> r.value.0 == rs && rs.position >= |rs.rows|
  {
    if rs.position < |rs.rows| then Ok((rs.(position := rs.position + 1), true))
    else if rs.failsAfterRows then Err(DriverError)
    else Ok((rs, false))
  }

  /** `close()`: an SQLException, surfacing as the connector's RuntimeException, or a closed result set. */
  function CloseResultSet(rs: ResultSet): (r: Result<ResultSet, Fault>)
    ensures r.Err? <==> rs.closeFails
    ensures r.Err? ==> r.error == CloseFailed
    ensures r.Ok? ==> r.value == rs.(isClosed := true)
  {
    if rs.closeFails then Err(CloseFailed) else Ok(rs.(isClosed := true))
  }

  /** `findColumn`: the first index carrying the name. */
  function FindColumn(labels: seq<string>, name: string): (r: Option<nat>)
    ensures r.Some? ==> r.value < |labels| && labels[r.value] == name
    ensures r.Some? ==> forall k :: 0 <= k < r.value ==> labels[k] != name
    ensures r.None? ==> forall k :: 0 <= k < |labels| ==> labels[k] != name
  {
    if |labels| == 0 then None
    else if labels[0] == name then Some(0)
    else match FindColumn(labels[1..], name)
      case None => None
      case Some(i) => Some(i + 1)
  }

  /**
   * `getObject(index)` with a 1-based index: an SQLException on a closed
   * result set, without a current row, or for an index outside the select
   * list.
   */
  function GetObject(rs: ResultSet, index: int): (r: Result<NativeValue, Fault>)
    requires WellFormed(rs)
    ensures r.Ok? <==> !rs.isClosed && 0 < rs.position && 1 <= index <= |rs.labels|
    ensures r.Ok? ==> r.value == rs.rows[rs.position - 1].values[index - 1]
    ensures r.Err? ==> r.error == DriverError
  {
    if !rs.isClosed && 0 < rs.position && 1 <= index <= |rs.labels| then Ok(rs.rows[rs.position - 1].values[index - 1])
    else Err(DriverError)
  }

  /** `getObject(name)`: the value of the first column with that name. */
  function GetObjectByLabel(rs: ResultSet, name: string): (r: Result<NativeValue, Fault>)
    requires WellFormed(rs)
    ensures r.Ok? <==> !rs.isClosed && 0 < rs.position && name in rs.labels
    ensures r.Ok? ==> exists k :: 0 <= k < |rs.labels| && rs.labels[k] == name && r.value == rs.rows[rs.position - 1].values[k]
    ensures r.Err? ==> r.error == DriverError
  {
    match FindColumn(rs.labels, name)
    case None => Err(DriverError)
    case Some(i) => GetObject(rs, i + 1)
  }

  /** Sum of the sizes of some rows. */
  function TotalSize(rows: seq<Row>): nat {
    if |rows| == 0 then 0 else rows[0].size + TotalSize(rows[1..])
  }
}
