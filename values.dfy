/**
 * The values both readers work on: the engine's column types, the objects the
 * JDBC driver hands back, the cells written into block builders, and the
 * faults raised on the way.
 */
module Values {
  import opened Common

  /** Java class an engine type is carried in (`Type.getJavaType()`). */
  datatype JavaType = BooleanJ | LongJ | DoubleJ | SliceJ | BlockJ | ObjectJ

  /** Engine column types; `Other` stands for every type the connector has no rule for. */
  datatype PrestoType =
    | Boolean | Tinyint | Smallint | Integer | Bigint | Real | Double
    | Decimal(precision: nat, scale: nat)
    | Date | Time | Timestamp
    | Varchar | Char(length: nat) | Varbinary
    | ArrayOf(element: PrestoType)
    | Other(name: string, javaType: JavaType)

  /** Largest precision whose unscaled value is carried in a `long` (a "short" decimal). */
  const MaxShortPrecision: nat := 18

  predicate IsShortDecimal(t: PrestoType) {
    t.Decimal? && t.precision <= MaxShortPrecision
  }

  function JavaTypeOf(t: PrestoType): JavaType {
    match t
    case Boolean => BooleanJ
    case Tinyint | Smallint | Integer | Bigint | Real | Date | Time | Timestamp => LongJ
    case Double => DoubleJ
    case Decimal(p, _) => if p <= MaxShortPrecision then LongJ else SliceJ
    case Varchar | Char(_) | Varbinary => SliceJ
    case ArrayOf(_) => BlockJ
    case Other(_, j) => j
  }

  /**
   * What `java.sql.Array.getArray()` returns: an array of objects, an array of
   * a primitive component type (elements boxed on access), or something that
   * is not an array at all.
   */
  datatype ArrayObject =
    | ObjectArray(objects: seq<NativeValue>)
    | PrimitiveArray(primitives: seq<NativeValue>)
    | NotAnArray

  /** Objects returned by `ResultSet.getObject`. */
  datatype NativeValue =
    | JNull
    | JBoolean(b: bool)
    /** a boxed Byte, Short, Integer or Long */
    | JIntegral(n: Long)
    /** a boxed Float or Double; `whole` is its value rounded toward zero (NaN as 0) */
    | JFloating(whole: int)
    /** a BigDecimal: unscaledValue() * 10^-scale */
    | JDecimal(unscaled: int, scale: int)
    | JString(s: string)
    /** a java.util.Date (also java.sql.Date, Time, Timestamp) */
    | JDate(millis: Long)
    | JBytes(bytes: seq<Byte>)
    /** a java.sql.Array */
    | JArray(contents: ArrayObject)
    /** any other class */
    | JOther

  type Byte = x: int | -0x80 <= x < 0x80

  predicate IsNumber(v: NativeValue) {
    v.JIntegral? || v.JFloating? || v.JDecimal?
  }

  function Pow10(n: nat): (r: nat)
    ensures r >= 1
  {
    if n == 0 then 1 else 10 * Pow10(n - 1)
  }

  /** The integral part of a BigDecimal, as `toBigInteger()`; truncates toward zero. */
  function DecimalIntegralPart(unscaled: int, scale: int): int {
    if scale >= 0 then JavaDiv(unscaled, Pow10(scale)) else unscaled * Pow10(-scale)
  }

  /** `Number.longValue()`, or None when the object is not a Number (a ClassCastException). */
  function LongValueOf(v: NativeValue): (r: Option<Long>)
    ensures r.Some? <==> IsNumber(v)
    ensures v.JIntegral? ==> r == Some(v.n)
  {
    match v
    case JIntegral(n) => Some(n)
    case JFloating(w) => Some(Saturate(w, LongMin, LongMax))
    case JDecimal(u, s) => Some(ToLong(DecimalIntegralPart(u, s)))
    case _ => None
  }

  /** `Number.intValue()`, or None when the object is not a Number. */
  function IntValueOf(v: NativeValue): (r: Option<Int32>)
    ensures r.Some? <==> IsNumber(v)
    ensures v.JIntegral? && IntMin <= v.n <= IntMax ==> r == Some(v.n)
    ensures v.JIntegral? ==> r == Some(ToInt32(v.n))
  {
    match v
    case JIntegral(n) => Some(ToInt32(n))
    case JFloating(w) => Some(Saturate(w, IntMin, IntMax))
    case JDecimal(u, s) => Some(ToInt32(DecimalIntegralPart(u, s)))
    case _ => None
  }

  /** Cells appended to a block builder. */
  datatype Cell =
    | NullCell
    | BoolCell(b: bool)
    | LongCell(v: Long)
    /** a double; the IEEE value of `of`'s `doubleValue()` is not modelled */
    | DoubleCell(of: NativeValue)
    /** `utf8Slice(s)` */
    | TextCell(s: string)
    /** `wrappedBuffer(bytes)` */
    | BytesCell(bytes: seq<Byte>)
    /** `Decimals.encodeScaledValue` of a BigDecimal with this unscaled value */
    | EncodedDecimalCell(unscaled: int)
    /** a nested block entry (`beginBlockEntry` ... `closeEntry`) */
    | ArrayCell(elements: seq<Cell>)

  /** Exceptions raised inside the readers, before any wrapping. */
  datatype Fault =
    /** PrestoException(GENERIC_INTERNAL_ERROR, "Unhandled type ...") */
    | UnhandledType(t: PrestoType)
    | NullPointer
    /** Joda's "Adding time zone offset caused overflow" */
    | OffsetOverflow
    /** an SQLException from the driver */
    | DriverError
    /** RuntimeException wrapping the SQLException of closing the result set */
    | CloseFailed
    | IndexOutOfBounds
    | ClassCast

  /** What leaves a reader's public method. */
  datatype Failure =
    /** `handleSqlException(e)`: RuntimeException(e), with close's failure suppressed in e */
    | Wrapped(cause: Fault, suppressed: Option<Fault>)
    /** checkState: cursor is closed */
    | IllegalState
    /** checkArgument failed */
    | IllegalArgument
    /** thrown directly, not through handleSqlException */
    | Raw(fault: Fault)
    /** IllegalStateException of `PageBuilder.build`: a block's entry count differs from the declared positions */
    | PositionsMismatch

  /** Offsets a zone may have: strictly less than a day either way. */
  type Offset = x: int | -86_399_999 <= x <= 86_399_999

  /**
   * What the model takes from outside: the JVM default zone's offset at an
   * instant, and `floatToRawIntBits(floatValue())` of a Number.
   */
  datatype Env = Env(zoneOffset: Long -> Offset, floatBits: NativeValue -> Int32)

  const MillisPerDay: int := 86_400_000

  /**
   * DATE: the driver's local-midnight instant shifted by the default zone's
   * offset (`getMillisKeepLocal(UTC, ...)`) and converted to days with
   * `TimeUnit.MILLISECONDS.toDays`, which truncates toward zero.
   */
  function DateDays(env: Env, localMillis: Long): (r: Result<Long, Fault>)
    ensures r.Ok? <==> LongMin <= localMillis + env.zoneOffset(localMillis) <= LongMax
    ensures r.Ok? ==> var utc := localMillis + env.zoneOffset(localMillis);
      && (utc >= 0 ==> r.value * MillisPerDay <= utc < (r.value + 1) * MillisPerDay)
      && (utc < 0 ==> (r.value - 1) * MillisPerDay < utc <= r.value * MillisPerDay)
  {
    var utc := localMillis + env.zoneOffset(localMillis);
    if LongMin <= utc <= LongMax then Ok(JavaDiv(utc, MillisPerDay)) else Err(OffsetOverflow)
  }

  /** TIME: milliseconds since UTC midnight (`millisOfDay` of the UTC chronology, floor semantics). */
  function MillisOfDay(millis: Long): (r: Long)
    ensures 0 <= r < MillisPerDay
    ensures (millis - r) % MillisPerDay == 0
  {
    millis % MillisPerDay
  }

  /**
   * The element objects `createArrayFromArrayObject` yields: None for a
   * non-array, the array itself for an object array, and the boxed elements
   * in order for a primitive array.
   */
  function ArrayElements(o: ArrayObject): Option<seq<NativeValue>> {
    match o
    case ObjectArray(objects) => Some(objects)
    case PrimitiveArray(primitives) => Some(primitives)
    case NotAnArray => None
  }

  /**
   * `createArrayFromArrayObject`: a primitive array is copied element by
   * element into a fresh object array; an object array is handed back with
   * the same elements (here in a new array, since the driver's own array is
   * not part of the model).
   */
  method CreateArrayFromArrayObject(o: ArrayObject) returns (r: Option<array<NativeValue>>)
    ensures r.None? <==> o.NotAnArray?
    ensures r.Some? ==> r.value[..] == ArrayElements(o).value
    ensures o.PrimitiveArray? ==> r.Some? && r.value.Length == |o.primitives|
    ensures o.PrimitiveArray? ==> forall i :: 0 <= i < |o.primitives| ==> r.value[i] == o.primitives[i]
  {
    match o {
      case NotAnArray =>
        return None;
      case ObjectArray(objects) =>
        var a := new NativeValue[|objects|](i requires 0 <= i < |objects| => objects[i]);
        return Some(a);
      case PrimitiveArray(primitives) =>
        var elementCount := |primitives|;
        var elements := new NativeValue[elementCount];
        var i := 0;
        while i < elementCount
          invariant 0 <= i <= elementCount
          invariant forall k :: 0 <= k < i ==> elements[k] == primitives[k]
        {
          elements[i] := primitives[i];
          i := i + 1;
        }
        return Some(elements);
    }
  }
}
