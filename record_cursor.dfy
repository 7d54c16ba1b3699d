/**
 * The row-at-a-time reader (`PhoenixRecordCursor`): `advanceNextPosition`
 * moves the result set on, and typed accessors convert the current row's
 * fields to the engine's representation. Every accessor but `getObject`
 * refuses a closed cursor; every failure inside an accessor closes the
 * cursor through `handleSqlException` before it escapes.
 *
 * The JDBC getters the accessors call are reduced to the driver's object for
 * the field: SQL NULL gives the getter's default (0, false) for primitive
 * results and null otherwise, a value of another representation an
 * SQLException.
 */
module RecordCursor {
  import opened Common
  import opened Values
  import opened Jdbc

  /** The zone and float functions, and the column types of the cursor's handles. */
  datatype Config = Config(env: Env, columns: seq<PrestoType>)

  /** The cursor's mutable fields and its result set. */
  datatype State = State(rs: ResultSet, closed: bool, bytesRead: nat, nanoStart: int, nanoEnd: int)

  /** `getType(field)`: `columnHandles.get(field)`, an IndexOutOfBoundsException outside the list. */
  function GetType(cfg: Config, field: int): (r: Result<PrestoType, Fault>)
    ensures r.Ok? <==> 0 <= field < |cfg.columns|
    ensures r.Ok? ==> r.value == cfg.columns[field]
    ensures r.Err? ==> r.error == IndexOutOfBounds
  {
    if 0 <= field < |cfg.columns| then Ok(cfg.columns[field]) else Err(IndexOutOfBounds)
  }

  /**
   * `close`: a second call does nothing; the first sets `closed`, then
   * closes the result set and the connection. A failure of either escapes
   * as a RuntimeException and leaves no end time.
   */
  function CloseSpec(s: State, now: int): (r: (State, Option<Fault>))
    ensures r.0.closed
    ensures s.closed ==> r == (s, None)
    ensures r.1.Some? <==> !s.closed && s.rs.closeFails
    ensures r.1.Some? ==> r.1.value == CloseFailed && r.0 == s.(closed := true)
    ensures !s.closed && r.1.None? ==> r.0 == s.(closed := true, rs := s.rs.(isClosed := true), nanoEnd := now)
  {
    if s.closed then (s, None)
    else match CloseResultSet(s.rs)
      case Err(f) => (s.(closed := true), Some(f))
      case Ok(rs) => (s.(closed := true, rs := rs, nanoEnd := now), None)
  }

  /** `handleSqlException`: close, attaching a failure of the close as suppressed, and wrap. */
  function HandleSqlExceptionSpec(s: State, e: Fault, now: int): (r: (State, Failure))
    ensures r.0.closed
    ensures r.0 == CloseSpec(s, now).0
    ensures r.1 == Wrapped(e, CloseSpec(s, now).1)
  {
    var (closed, closeFailure) := CloseSpec(s, now);
    (closed, Wrapped(e, closeFailure))
  }

  /** `getReadTimeNanos` with `now` standing for `System.nanoTime()`. */
  function ReadTimeNanos(s: State, now: int): (r: int)
    ensures s.nanoStart <= 0 ==> r == 0
    ensures s.nanoStart > 0 && s.nanoEnd != 0 ==> r == s.nanoEnd - s.nanoStart
  {
    if s.nanoStart > 0 then (if s.nanoEnd == 0 then now else s.nanoEnd) - s.nanoStart else 0
  }

  /**
   * `advanceNextPosition`: false without touching the result set once
   * closed; otherwise the first call records the start time, a row adds its
   * size to `bytesRead`, and the end of the rows closes the cursor.
   */
  function AdvanceSpec(s: State, now: int): (r: (State, Result<bool, Failure>))
    requires WellFormed(s.rs)
    ensures WellFormed(r.0.rs)
  {
    if s.closed then (s, Ok(false))
    else
      var started := if s.nanoStart == 0 then s.(nanoStart := now) else s;
      match Next(started.rs)
      case Err(f) =>
        var (t, failure) := HandleSqlExceptionSpec(started, f, now);
        (t, Err(failure))
      case Ok((rs, more)) =>
        if more then
          (started.(rs := rs, bytesRead := started.bytesRead + rs.rows[rs.position - 1].size), Ok(true))
        else
          match CloseSpec(started.(rs := rs), now)
          case (t, Some(f)) =>
            var (u, failure) := HandleSqlExceptionSpec(t, f, now);
            (u, Err(failure))
          case (t, None) => (t, Ok(false))
  }

  /** `CharMatcher.is(' ').trimTrailingFrom(s)`. */
  function TrimTrailingSpaces(s: string): (r: string)
    ensures r <= s
    ensures |r| == 0 || r[|r| - 1] != ' '
    ensures forall k :: |r| <= k < |s| ==> s[k] == ' '
  {
    if |s| == 0 || s[|s| - 1] != ' ' then s
    else TrimTrailingSpaces(s[..|s| - 1])
  }

  /** A JDBC getter of an integral result before narrowing: 0 for SQL NULL, `longValue()` of a number. */
  function IntegralOf(v: NativeValue): (r: Result<Long, Fault>)
    ensures r.Ok? <==> v.JNull? || IsNumber(v)
    ensures v.JNull? ==> r == Ok(0)
    ensures IsNumber(v) ==> r == Ok(LongValueOf(v).value)
    ensures r.Err? ==> r.error == DriverError
  {
    if v.JNull? then Ok(0)
    else match LongValueOf(v)
      case None => Err(DriverError)
      case Some(n) => Ok(n)
  }

  /** The types `getLong` converts. */
  predicate LongType(t: PrestoType) {
    t in {Tinyint, Smallint, Integer, Real, Bigint, Date, Time, Timestamp} || IsShortDecimal(t)
  }

  /**
   * The body of `getLong` once the field's object `v` has been read: the
   * integral getters narrow, REAL keeps the float's raw bits, a short decimal
   * gives its unscaled value, DATE the UTC day of the driver's local
   * midnight, TIME the UTC milliseconds of the day and TIMESTAMP the
   * milliseconds. A null object where the code dereferences one is a
   * NullPointerException.
   */
  function LongOf(env: Env, t: PrestoType, v: NativeValue): (r: Result<Long, Fault>)
    requires LongType(t)
    ensures r.Err? ==> r.error in {DriverError, NullPointer, OffsetOverflow}
  {
    match t
    case Tinyint => (match IntegralOf(v) case Ok(n) => Ok(ToInt8(n)) case Err(f) => Err(f))
    case Smallint => (match IntegralOf(v) case Ok(n) => Ok(ToInt16(n)) case Err(f) => Err(f))
    case Integer => (match IntegralOf(v) case Ok(n) => Ok(ToInt32(n)) case Err(f) => Err(f))
    case Bigint => IntegralOf(v)
    case Real =>
      if v.JNull? then Ok(0)
      else if IsNumber(v) then Ok(env.floatBits(v))
      else Err(DriverError)
    case Decimal(_, _) =>
      (match v
       case JNull => Err(NullPointer)
       case JDecimal(unscaled, _) => Ok(ToLong(unscaled))
       case JIntegral(n) => Ok(n)
       case _ => Err(DriverError))
    case Date =>
      (match v
       case JNull => Err(NullPointer)
       case JDate(m) => DateDays(env, m)
       case _ => Err(DriverError))
    case Time =>
      (match v
       case JNull => Err(NullPointer)
       case JDate(m) => Ok(MillisOfDay(m))
       case _ => Err(DriverError))
    case Timestamp =>
      (match v
       case JNull => Err(NullPointer)
       case JDate(m) => Ok(m)
       case _ => Err(DriverError))
  }

  /** The types `getSlice` converts. */
  predicate SliceType(t: PrestoType) {
    t.Varchar? || t.Char? || t.Varbinary? || t.Decimal?
  }

  /**
   * The body of `getSlice` once the field's object `v` has been read:
   * VARCHAR as is, CHAR without its trailing spaces, VARBINARY the bytes
   * wrapped as they are, any DECIMAL encoded. As in `LongOf`,
   * `getBigDecimal` of an integral number is that number with scale 0; the
   * other getters accept only their own class of object, and a null object
   * is dereferenced.
   */
  function SliceOf(t: PrestoType, v: NativeValue): (r: Result<Cell, Fault>)
    requires SliceType(t)
    ensures r.Err? ==> r.error in {DriverError, NullPointer}
  {
    match v
    case JNull => Err(NullPointer)
    case JString(s) =>
      if t.Varchar? then Ok(TextCell(s))
      else if t.Char? then Ok(TextCell(TrimTrailingSpaces(s)))
      else Err(DriverError)
    case JBytes(b) => if t.Varbinary? then Ok(BytesCell(b)) else Err(DriverError)
    case JDecimal(unscaled, _) => if t.Decimal? then Ok(EncodedDecimalCell(unscaled)) else Err(DriverError)
    case JIntegral(n) => if t.Decimal? then Ok(EncodedDecimalCell(n)) else Err(DriverError)
    case _ => Err(DriverError)
  }

  /** A failure inside a try block: the cursor is closed and the error wrapped. */
  function Fail<T>(s: State, f: Fault, now: int): (r: (State, Result<T, Failure>))
    ensures r.0.closed && r.1 == Err(Wrapped(f, CloseSpec(s, now).1))
    ensures r.0 == CloseSpec(s, now).0
  {
    var (t, failure) := HandleSqlExceptionSpec(s, f, now);
    (t, Err(failure))
  }

  /** The driver's object for `field`, as `resultSet.getX(field + 1)` sees it. */
  function FieldValue(s: State, field: int): (r: Result<NativeValue, Fault>)
    requires WellFormed(s.rs)
  {
    GetObject(s.rs, field + 1)
  }

  /** `getLong(field)`. */
  function GetLongSpec(cfg: Config, s: State, field: int, now: int): (r: (State, Result<Long, Failure>))
    requires WellFormed(s.rs)
  {
    if s.closed then (s, Err(IllegalState))
    else match GetType(cfg, field)
      case Err(f) => Fail(s, f, now)
      case Ok(t) =>
        if !LongType(t) then Fail(s, UnhandledType(t), now)
        else match FieldValue(s, field)
          case Err(f) => Fail(s, f, now)
          case Ok(v) =>
            match LongOf(cfg.env, t, v)
            case Err(f) => Fail(s, f, now)
            case Ok(n) => (s, Ok(n))
  }

  /** `getSlice(field)`. */
  function GetSliceSpec(cfg: Config, s: State, field: int, now: int): (r: (State, Result<Cell, Failure>))
    requires WellFormed(s.rs)
  {
    if s.closed then (s, Err(IllegalState))
    else match GetType(cfg, field)
      case Err(f) => Fail(s, f, now)
      case Ok(t) =>
        if !SliceType(t) then Fail(s, UnhandledType(t), now)
        else match FieldValue(s, field)
          case Err(f) => Fail(s, f, now)
          case Ok(v) =>
            match SliceOf(t, v)
            case Err(f) => Fail(s, f, now)
            case Ok(c) => (s, Ok(c))
  }

  /** `getBoolean(field)`: false for SQL NULL. */
  function GetBooleanSpec(s: State, field: int, now: int): (r: (State, Result<bool, Failure>))
    requires WellFormed(s.rs)
  {
    if s.closed then (s, Err(IllegalState))
    else match FieldValue(s, field)
      case Err(f) => Fail(s, f, now)
      case Ok(JNull) => (s, Ok(false))
      case Ok(JBoolean(b)) => (s, Ok(b))
      case Ok(_) => Fail(s, DriverError, now)
  }

  /**
   * `getDouble(field)`: the number whose `doubleValue()` is returned (SQL
   * NULL reads as zero); the floating-point value itself is not modelled.
   */
  function GetDoubleSpec(s: State, field: int, now: int): (r: (State, Result<NativeValue, Failure>))
    requires WellFormed(s.rs)
  {
    if s.closed then (s, Err(IllegalState))
    else match FieldValue(s, field)
      case Err(f) => Fail(s, f, now)
      case Ok(v) =>
        if v.JNull? then (s, Ok(JFloating(0)))
        else if IsNumber(v) then (s, Ok(v))
        else Fail(s, DriverError, now)
  }

  /**
   * `isNull(field)`: a field index at or past the column count is an
   * illegal argument (a negative one reaches the driver and fails there);
   * otherwise the field is read and `wasNull` reported.
   */
  function IsNullSpec(cfg: Config, s: State, field: int, now: int): (r: (State, Result<bool, Failure>))
    requires WellFormed(s.rs)
  {
    if s.closed then (s, Err(IllegalState))
    else if field >= |cfg.columns| then (s, Err(IllegalArgument))
    else match FieldValue(s, field)
      case Err(f) => Fail(s, f, now)
      case Ok(v) => (s, Ok(v.JNull?))
  }

  /**
   * `writeObject` for one array element: a nested array element is cast to
   * `List`, which a driver element never is; any other type is written
   * with `TypeUtils.writeNativeValue` (null, a boolean, a number for a
   * long or double type, a string or bytes for a Slice type; a cast failure
   * otherwise).
   */
  function WriteObject(t: PrestoType, v: NativeValue): (r: Result<Cell, Fault>)
    ensures v.JNull? && !t.ArrayOf? ==> r == Ok(NullCell)
    ensures t.ArrayOf? ==> r.Err?
    ensures r.Err? ==> r.error in {ClassCast, NullPointer}
  {
    if t.ArrayOf? then Err(if v.JNull? then NullPointer else ClassCast)
    else if v.JNull? then Ok(NullCell)
    else match JavaTypeOf(t)
      case BooleanJ => if v.JBoolean? then Ok(BoolCell(v.b)) else Err(ClassCast)
      case DoubleJ => if IsNumber(v) then Ok(DoubleCell(v)) else Err(ClassCast)
      case LongJ => (match LongValueOf(v) case Some(n) => Ok(LongCell(n)) case None => Err(ClassCast))
      case SliceJ =>
        (match v
         case JBytes(b) => Ok(BytesCell(b))
         case JString(s) => Ok(TextCell(s))
         case _ => Err(ClassCast))
      case _ => Err(ClassCast)
  }

  /**
   * `getBlockFromArray`: the elements written in order; the first element
   * that cannot be written stops the block.
   */
  function ElementCells(t: PrestoType, elements: seq<NativeValue>): (r: Result<seq<Cell>, Fault>)
    ensures r.Ok? ==> |r.value| == |elements|
  {
    if |elements| == 0 then Ok([])
    else match ElementCells(t, elements[..|elements| - 1])
      case Err(f) => Err(f)
      case Ok(cells) =>
        match WriteObject(t, elements[|elements| - 1])
        case Err(f) => Err(f)
        case Ok(c) => Ok(cells + [c])
  }

  /**
   * `getObject(field)`: no closed check; an out-of-range field and a
   * non-array type fail before the try and leave the cursor as it is. Inside
   * the try, SQL NULL (a null `java.sql.Array`) and a result that is not a
   * Java array (a null element array) are NullPointerExceptions.
   */
  function GetObjectSpec(cfg: Config, s: State, field: int, now: int): (r: (State, Result<seq<Cell>, Failure>))
    requires WellFormed(s.rs)
  {
    match GetType(cfg, field)
    case Err(f) => (s, Err(Raw(f)))
    case Ok(t) =>
      if !t.ArrayOf? then (s, Err(IllegalArgument))
      else match FieldValue(s, field)
        case Err(f) => Fail(s, f, now)
        case Ok(JNull) => Fail(s, NullPointer, now)
        case Ok(JArray(contents)) =>
          (match ArrayElements(contents)
           case None => Fail(s, NullPointer, now)
           case Some(elements) =>
             match ElementCells(t.element, elements)
             case Err(f) => Fail(s, f, now)
             case Ok(cells) => (s, Ok(cells)))
        case Ok(_) => Fail(s, DriverError, now)
  }

  /** Every cell of a written block is `writeObject` of the element at its index. */
  lemma {:induction false} ElementCellsElementwise(t: PrestoType, elements: seq<NativeValue>)
    ensures ElementCells(t, elements).Ok? <==> forall k :: 0 <= k < |elements| ==> WriteObject(t, elements[k]).Ok?
    ensures ElementCells(t, elements).Ok? ==>
      forall k :: 0 <= k < |elements| ==> ElementCells(t, elements).value[k] == WriteObject(t, elements[k]).value
    decreases |elements|
  {
    if |elements| > 0 {
      var init := elements[..|elements| - 1];
      ElementCellsElementwise(t, init);
      assert forall k :: 0 <= k < |init| ==> init[k] == elements[k];
    }
  }

  /** Trimming is idempotent and ignores any spaces appended. */
  lemma {:induction false} TrimTrailingSpacesStable(s: string, spaces: nat)
    ensures TrimTrailingSpaces(TrimTrailingSpaces(s)) == TrimTrailingSpaces(s)
    ensures TrimTrailingSpaces(s + seq(spaces, _ => ' ')) == TrimTrailingSpaces(s)
    decreases spaces
  {
    if spaces > 0 {
      var padded := s + seq(spaces, _ => ' ');
      assert padded[..|padded| - 1] == s + seq(spaces - 1, _ => ' ');
      TrimTrailingSpacesStable(s, spaces - 1);
    } else {
      assert s + seq(0, _ => ' ') == s;
    }
  }

  lemma TrimExample()
    ensures TrimTrailingSpaces("ab  ") == "ab"
    ensures TrimTrailingSpaces(" a b") == " a b"
  {
    assert "ab  "[..3] == "ab ";
    assert "ab "[..2] == "ab";
  }

  /** On a closed cursor every accessor but `getObject` fails with IllegalStateException and changes nothing. */
  lemma ClosedCursorGuards(cfg: Config, s: State, field: int, now: int)
    requires WellFormed(s.rs) && s.closed
    ensures GetLongSpec(cfg, s, field, now) == (s, Err(IllegalState))
    ensures GetSliceSpec(cfg, s, field, now) == (s, Err(IllegalState))
    ensures GetBooleanSpec(s, field, now) == (s, Err(IllegalState))
    ensures GetDoubleSpec(s, field, now) == (s, Err(IllegalState))
    ensures IsNullSpec(cfg, s, field, now) == (s, Err(IllegalState))
    ensures AdvanceSpec(s, now) == (s, Ok(false))
    ensures GetObjectSpec(cfg, s, field, now).1 != Err(IllegalState)
  {
  }

  /**
   * `getLong` converts exactly the types it names; any other type is an
   * unhandled-type error that also closes the cursor. Every failure of an
   * open cursor's `getLong` or `getSlice` leaves it closed.
   */
  lemma UnhandledTypesClose(cfg: Config, s: State, field: int, now: int)
    requires WellFormed(s.rs) && !s.closed && 0 <= field < |cfg.columns|
    ensures var (t, r) := GetLongSpec(cfg, s, field, now);
      && (!LongType(cfg.columns[field]) <==> r.Err? && r.error.Wrapped? && r.error.cause == UnhandledType(cfg.columns[field]))
      && (r.Err? ==> t.closed)
    ensures var (t, r) := GetSliceSpec(cfg, s, field, now);
      && (!SliceType(cfg.columns[field]) <==> r.Err? && r.error.Wrapped? && r.error.cause == UnhandledType(cfg.columns[field]))
      && (r.Err? ==> t.closed)
  {
    var ty := cfg.columns[field];
    if LongType(ty) && FieldValue(s, field).Ok? {
      assert LongOf(cfg.env, ty, FieldValue(s, field).value).Err? ==>
        LongOf(cfg.env, ty, FieldValue(s, field).value).error != UnhandledType(ty);
    }
    if SliceType(ty) && FieldValue(s, field).Ok? {
      assert SliceOf(ty, FieldValue(s, field).value).Err? ==>
        SliceOf(ty, FieldValue(s, field).value).error != UnhandledType(ty);
    }
  }

  /** An out-of-range field in `getLong` goes through `handleSqlException`; in `getObject` it does not. */
  lemma BadFieldIndex(cfg: Config, s: State, field: int, now: int)
    requires WellFormed(s.rs) && !s.closed && (field < 0 || field >= |cfg.columns|)
    ensures GetLongSpec(cfg, s, field, now) == Fail(s, IndexOutOfBounds, now)
    ensures GetObjectSpec(cfg, s, field, now) == (s, Err(Raw(IndexOutOfBounds)))
    ensures field >= |cfg.columns| ==> IsNullSpec(cfg, s, field, now) == (s, Err(IllegalArgument))
  {
  }

  /** `isNull` reads the field first and reports exactly whether it held SQL NULL. */
  lemma IsNullReadsField(cfg: Config, s: State, field: int, now: int)
    requires WellFormed(s.rs) && !s.closed && field < |cfg.columns|
    ensures FieldValue(s, field).Ok? ==> IsNullSpec(cfg, s, field, now) == (s, Ok(FieldValue(s, field).value.JNull?))
    ensures FieldValue(s, field).Err? ==> IsNullSpec(cfg, s, field, now).0.closed
  {
  }

  /**
   * The date and time rules of `getLong`: DATE is the day, truncated toward
   * zero, of the local-midnight instant shifted by the zone offset; TIME the
   * UTC milliseconds of the day, within one day; TIMESTAMP the milliseconds.
   */
  lemma DateTimeRules(env: Env, m: Long, d: int)
    ensures LongOf(env, Timestamp, JDate(m)) == Ok(m)
    ensures var r := LongOf(env, Time, JDate(m)); r.Ok? && 0 <= r.value < MillisPerDay && (m - r.value) % MillisPerDay == 0
    ensures m + env.zoneOffset(m) == d * MillisPerDay && LongMin <= d * MillisPerDay <= LongMax ==>
      LongOf(env, Date, JDate(m)) == Ok(d)
  {
    if m + env.zoneOffset(m) == d * MillisPerDay && LongMin <= d * MillisPerDay <= LongMax {
      var r := DateDays(env, m);
      if d >= 0 {
        assert r.value * MillisPerDay <= d * MillisPerDay < (r.value + 1) * MillisPerDay;
      } else {
        assert (r.value - 1) * MillisPerDay < d * MillisPerDay <= r.value * MillisPerDay;
      }
    }
  }

  /**
   * A short decimal reads as its unscaled value, an integral number as
   * itself; CHAR loses exactly its trailing spaces; VARBINARY wraps the
   * driver's bytes as they are and refuses any other object.
   */
  lemma SliceAndDecimalRules(env: Env, p: nat, sc: nat, u: Long, s: string, b: seq<Byte>, v: NativeValue)
    ensures p <= MaxShortPrecision ==> LongOf(env, Decimal(p, sc), JDecimal(u, sc)) == Ok(u)
    ensures p <= MaxShortPrecision ==> LongOf(env, Decimal(p, sc), JIntegral(u)) == Ok(u)
    ensures SliceOf(Varchar, JString(s)) == Ok(TextCell(s))
    ensures SliceOf(Char(p), JString(s)) == Ok(TextCell(TrimTrailingSpaces(s)))
    ensures SliceOf(Varbinary, JBytes(b)) == Ok(BytesCell(b))
    ensures !v.JBytes? && !v.JNull? ==> SliceOf(Varbinary, v) == Err(DriverError)
    ensures SliceOf(Decimal(p, sc), JDecimal(u, sc)) == Ok(EncodedDecimalCell(u))
    ensures SliceOf(Decimal(p, sc), JIntegral(u)) == Ok(EncodedDecimalCell(u))
    ensures SliceOf(Varbinary, JNull) == Err(NullPointer)
  {
  }

  /**
   * `advanceNextPosition` on an open cursor: true moves to the next row and
   * adds its size to `bytesRead`; false means the rows are exhausted and
   * the cursor is now closed; a failure also closes it.
   */
  lemma AdvanceEffect(s: State, now: int)
    requires WellFormed(s.rs) && !s.closed
    ensures var (t, r) := AdvanceSpec(s, now);
      && (r == Ok(true) ==>
            && s.rs.position < |s.rs.rows| && t.rs.position == s.rs.position + 1
            && t.bytesRead == s.bytesRead + s.rs.rows[s.rs.position].size && !t.closed)
      && (r == Ok(false) ==> s.rs.position == |s.rs.rows| && t.closed && t.bytesRead == s.bytesRead)
      && (r.Err? ==> t.closed)
      && t.bytesRead >= s.bytesRead
      && (s.nanoStart == 0 ==> t.nanoStart == now)
  {
  }

  /**
   * `close` is idempotent; `handleSqlException` always leaves the cursor
   * closed and attaches only the failure of its own close, never the error
   * it wraps.
   */
  lemma CloseAndHandleSqlException(s: State, e: Fault, now: int, later: int)
    ensures CloseSpec(CloseSpec(s, now).0, later) == (CloseSpec(s, now).0, None)
    ensures var (t, f) := HandleSqlExceptionSpec(s, e, now);
      && t.closed && f.cause == e
      && (f.suppressed.Some? ==> !s.closed && f.suppressed == Some(CloseFailed))
      && (s.closed ==> t == s && f.suppressed.None?)
  {
  }

  /** The cursor. */
  class PhoenixRecordCursor {
    const cfg: Config
    var rs: ResultSet
    var closed: bool
    var bytesRead: nat
    var nanoStart: int
    var nanoEnd: int

    function Snapshot(): State
      reads this
    {
      State(rs, closed, bytesRead, nanoStart, nanoEnd)
    }

    ghost predicate Valid()
      reads this
    {
      WellFormed(rs)
    }

    /** A cursor over a freshly executed query (the connection and query set-up are not modelled). */
    constructor (env: Env, columns: seq<PrestoType>, resultSet: ResultSet)
      requires WellFormed(resultSet)
      ensures Valid() && cfg == Config(env, columns)
      ensures Snapshot() == State(resultSet, false, 0, 0, 0)
    {
      cfg := Config(env, columns);
      rs := resultSet;
      closed := false;
      bytesRead := 0;
      nanoStart := 0;
      nanoEnd := 0;
    }

    function GetCompletedBytes(): (r: nat)
      reads this
      ensures r == Snapshot().bytesRead
    {
      bytesRead
    }

    function GetReadTimeNanos(now: int): (r: int)
      reads this
      ensures r == ReadTimeNanos(Snapshot(), now)
    {
      if nanoStart > 0 then (if nanoEnd == 0 then now else nanoEnd) - nanoStart else 0
    }

    method Close(now: int) returns (fault: Option<Fault>)
      modifies this
      ensures (Snapshot(), fault) == CloseSpec(old(Snapshot()), now)
    {
      if closed {
        return None;
      }
      closed := true;
      match CloseResultSet(rs) {
        case Err(f) =>
          return Some(f);
        case Ok(closedSet) =>
          rs := closedSet;
      }
      nanoEnd := now;
      return None;
    }

    method HandleSqlException(e: Fault, now: int) returns (failure: Failure)
      modifies this
      ensures (Snapshot(), failure) == HandleSqlExceptionSpec(old(Snapshot()), e, now)
    {
      var closeFailure := Close(now);
      failure := Wrapped(e, closeFailure);
    }

    method AdvanceNextPosition(now: int) returns (r: Result<bool, Failure>)
      requires Valid()
      modifies this
      ensures Valid()
      ensures (Snapshot(), r) == AdvanceSpec(old(Snapshot()), now)
    {
      if closed {
        return Ok(false);
      }
      if nanoStart == 0 {
        nanoStart := now;
      }
      var next := Next(rs);
      if next.Err? {
        var failure := HandleSqlException(next.error, now);
        return Err(failure);
      }
      rs := next.value.0;
      if !next.value.1 {
        var fault := Close(now);
        if fault.Some? {
          var failure := HandleSqlException(fault.value, now);
          return Err(failure);
        }
        return Ok(false);
      }
      bytesRead := bytesRead + rs.rows[rs.position - 1].size;
      return Ok(true);
    }

    method GetLong(field: int, now: int) returns (r: Result<Long, Failure>)
      requires Valid()
      modifies this
      ensures Valid()
      ensures (Snapshot(), r) == GetLongSpec(cfg, old(Snapshot()), field, now)
    {
      if closed {
        return Err(IllegalState);
      }
      var fault: Fault;
      var t := GetType(cfg, field);
      if t.Err? {
        fault := t.error;
      } else if !LongType(t.value) {
        fault := UnhandledType(t.value);
      } else {
        var v := FieldValue(Snapshot(), field);
        if v.Err? {
          fault := v.error;
        } else {
          var n := LongOf(cfg.env, t.value, v.value);
          if n.Ok? {
            return Ok(n.value);
          }
          fault := n.error;
        }
      }
      var failure := HandleSqlException(fault, now);
      return Err(failure);
    }

    method GetSlice(field: int, now: int) returns (r: Result<Cell, Failure>)
      requires Valid()
      modifies this
      ensures Valid()
      ensures (Snapshot(), r) == GetSliceSpec(cfg, old(Snapshot()), field, now)
    {
      if closed {
        return Err(IllegalState);
      }
      var fault: Fault;
      var t := GetType(cfg, field);
      if t.Err? {
        fault := t.error;
      } else if !SliceType(t.value) {
        fault := UnhandledType(t.value);
      } else {
        var v := FieldValue(Snapshot(), field);
        if v.Err? {
          fault := v.error;
        } else {
          var c := SliceOf(t.value, v.value);
          if c.Ok? {
            return Ok(c.value);
          }
          fault := c.error;
        }
      }
      var failure := HandleSqlException(fault, now);
      return Err(failure);
    }

    method GetBoolean(field: int, now: int) returns (r: Result<bool, Failure>)
      requires Valid()
      modifies this
      ensures Valid()
      ensures (Snapshot(), r) == GetBooleanSpec(old(Snapshot()), field, now)
    {
      if closed {
        return Err(IllegalState);
      }
      var v := FieldValue(Snapshot(), field);
      var fault: Fault;
      if v.Err? {
        fault := v.error;
      } else if v.value.JNull? {
        return Ok(false);
      } else if v.value.JBoolean? {
        return Ok(v.value.b);
      } else {
        fault := DriverError;
      }
      var failure := HandleSqlException(fault, now);
      return Err(failure);
    }

    method GetDouble(field: int, now: int) returns (r: Result<NativeValue, Failure>)
      requires Valid()
      modifies this
      ensures Valid()
      ensures (Snapshot(), r) == GetDoubleSpec(old(Snapshot()), field, now)
    {
      if closed {
        return Err(IllegalState);
      }
      var v := FieldValue(Snapshot(), field);
      var fault: Fault;
      if v.Err? {
        fault := v.error;
      } else if v.value.JNull? {
        return Ok(JFloating(0));
      } else if IsNumber(v.value) {
        return Ok(v.value);
      } else {
        fault := DriverError;
      }
      var failure := HandleSqlException(fault, now);
      return Err(failure);
    }

    method IsNull(field: int, now: int) returns (r: Result<bool, Failure>)
      requires Valid()
      modifies this
      ensures Valid()
      ensures (Snapshot(), r) == IsNullSpec(cfg, old(Snapshot()), field, now)
    {
      if closed {
        return Err(IllegalState);
      }
      if field >= |cfg.columns| {
        return Err(IllegalArgument);
      }
      var v := FieldValue(Snapshot(), field);
      if v.Err? {
        var failure := HandleSqlException(v.error, now);
        return Err(failure);
      }
      return Ok(v.value.JNull?);
    }

    /** `getBlockFromArray`: one `writeObject` per element of the array, in order. */
    static method BlockFromArray(t: PrestoType, elements: array<NativeValue>) returns (r: Result<seq<Cell>, Fault>)
      ensures r == ElementCells(t, elements[..])
    {
      var cells: seq<Cell> := [];
      var i := 0;
      while i < elements.Length
        invariant 0 <= i <= elements.Length
        invariant ElementCells(t, elements[..i]) == Ok(cells)
      {
        assert elements[..i + 1][..i] == elements[..i];
        var c := WriteObject(t, elements[i]);
        if c.Err? {
          assert ElementCells(t, elements[..i + 1]).Err?;
          ElementCellsFailureSticks(t, elements[..], i + 1);
          return Err(c.error);
        }
        cells := cells + [c.value];
        i := i + 1;
      }
      assert elements[..elements.Length] == elements[..];
      return Ok(cells);
    }

    method GetObject(field: int, now: int) returns (r: Result<seq<Cell>, Failure>)
      requires Valid()
      modifies this
      ensures Valid()
      ensures (Snapshot(), r) == GetObjectSpec(cfg, old(Snapshot()), field, now)
    {
      var t := GetType(cfg, field);
      if t.Err? {
        return Err(Raw(t.error));
      }
      if !t.value.ArrayOf? {
        return Err(IllegalArgument);
      }
      var v := FieldValue(Snapshot(), field);
      var fault: Fault;
      if v.Err? {
        fault := v.error;
      } else if v.value.JNull? {
        fault := NullPointer;
      } else if v.value.JArray? {
        var elements := CreateArrayFromArrayObject(v.value.contents);
        if elements.None? {
          fault := NullPointer;
        } else {
          var cells := BlockFromArray(t.value.element, elements.value);
          if cells.Ok? {
            return Ok(cells.value);
          }
          fault := cells.error;
        }
      } else {
        fault := DriverError;
      }
      var failure := HandleSqlException(fault, now);
      return Err(failure);
    }
  }

  /** Once a prefix of the elements fails to be written, so does every longer prefix. */
  lemma {:induction false} ElementCellsFailureSticks(t: PrestoType, elements: seq<NativeValue>, n: nat)
    requires n <= |elements| && ElementCells(t, elements[..n]).Err?
    ensures ElementCells(t, elements) == ElementCells(t, elements[..n])
    decreases |elements| - n
  {
    if n < |elements| {
      assert elements[..n + 1][..n] == elements[..n];
      ElementCellsFailureSticks(t, elements, n + 1);
    } else {
      assert elements[..n] == elements;
    }
  }
}
