/**
 * The batch reader's value coercion (`appendTo`, `writeSlice`, `writeBlock`
 * of the page source): one driver object and one column type give the cell
 * appended to the column's block builder, or a fault that aborts the read.
 *
 * A ClassCastException inside `appendTo` is caught and becomes a null cell, so
 * a value of the wrong Java class for a known type is never fatal; a type the
 * dispatch has no rule for is (GENERIC_INTERNAL_ERROR).
 */
module Coercion {
  import opened Common
  import opened Values

  /** The Java class each handled type expects; any other class is a ClassCastException. */
  predicate ShapeMatches(t: PrestoType, v: NativeValue) {
    match t
    case Boolean => v.JBoolean?
    case Tinyint | Smallint | Integer | Bigint | Real | Double => IsNumber(v)
    case Decimal(_, _) => v.JDecimal?
    case Date | Time | Timestamp => v.JDate?
    case Varchar | Char(_) => v.JString?
    case Varbinary => v.JBytes?
    case ArrayOf(_) => v.JArray?
    case Other(_, j) => (j == BooleanJ && v.JBoolean?) || (j == DoubleJ && IsNumber(v))
  }

  /**
   * A type the dispatch has no rule for: the boolean and double branches of
   * `appendTo` write any type of that Java class, every other branch lists the
   * types it handles.
   */
  predicate Unmapped(t: PrestoType) {
    t.Other? && t.javaType != BooleanJ && t.javaType != DoubleJ
  }

  /** Whether a cell is one the column type can hold. */
  predicate Fits(t: PrestoType, c: Cell) {
    c.NullCell? ||
    match t
    case Boolean => c.BoolCell?
    case Tinyint | Smallint | Integer => c.LongCell? && IntMin <= c.v <= IntMax
    case Real => c.LongCell? && IntMin <= c.v <= IntMax
    case Bigint | Date | Timestamp => c.LongCell?
    case Time => c.LongCell? && 0 <= c.v < MillisPerDay
    case Double => c.DoubleCell?
    case Decimal(p, _) => if p <= MaxShortPrecision then c.LongCell? else c.EncodedDecimalCell?
    case Varchar | Char(_) => c.TextCell?
    case Varbinary => c.BytesCell?
    case ArrayOf(e) => c.ArrayCell? && forall i :: 0 <= i < |c.elements| ==> Fits(e, c.elements[i])
    case Other(_, j) => (j == BooleanJ && c.BoolCell?) || (j == DoubleJ && c.DoubleCell?)
  }

  /** The faults coercion may raise. */
  predicate CoercionFault(f: Fault) {
    f.UnhandledType? || f.NullPointer? || f.OffsetOverflow?
  }

  /** `appendTo(type, value, output)`: the cell appended for `v` in a column of type `t`. */
  function AppendTo(env: Env, t: PrestoType, v: NativeValue): (r: Result<Cell, Fault>)
    decreases v, 2, 0
    ensures v.JNull? ==> r == Ok(NullCell)
    ensures r == Ok(NullCell) <==> v.JNull? || (!Unmapped(t) && !ShapeMatches(t, v))
    ensures r.Err? && r.error.UnhandledType? ==> r.error.t == t || t.ArrayOf?
    ensures Unmapped(t) && !v.JNull? ==> r == Err(UnhandledType(t))
    ensures r.Ok? ==> Fits(t, r.value)
    ensures r.Err? ==> CoercionFault(r.error)
  {
    if v.JNull? then Ok(NullCell)
    else
      match JavaTypeOf(t)
      case BooleanJ => if v.JBoolean? then Ok(BoolCell(v.b)) else Ok(NullCell)
      case LongJ => WriteLong(env, t, v)
      case DoubleJ => if IsNumber(v) then Ok(DoubleCell(v)) else Ok(NullCell)
      case SliceJ => WriteSlice(t, v)
      case BlockJ => WriteBlock(env, t, v)
      case ObjectJ => Err(UnhandledType(t))
  }

  /** The `javaType == long.class` branch of `appendTo`. */
  function WriteLong(env: Env, t: PrestoType, v: NativeValue): (r: Result<Cell, Fault>)
    requires JavaTypeOf(t) == LongJ && !v.JNull?
  {
    match t
    case Bigint => if IsNumber(v) then Ok(LongCell(LongValueOf(v).value)) else Ok(NullCell)
    case Integer | Smallint | Tinyint => if IsNumber(v) then Ok(LongCell(IntValueOf(v).value)) else Ok(NullCell)
    case Real => if IsNumber(v) then Ok(LongCell(env.floatBits(v))) else Ok(NullCell)
    case Decimal(_, _) => if v.JDecimal? then Ok(LongCell(ToLong(v.unscaled))) else Ok(NullCell)
    case Date =>
      if v.JDate? then
        match DateDays(env, v.millis)
        case Ok(days) => Ok(LongCell(days))
        case Err(f) => Err(f)
      else Ok(NullCell)
    case Time => if v.JDate? then Ok(LongCell(MillisOfDay(v.millis))) else Ok(NullCell)
    case Timestamp => if v.JDate? then Ok(LongCell(v.millis)) else Ok(NullCell)
    case _ => Err(UnhandledType(t))
  }

  /** `writeSlice`: VARCHAR and CHAR untrimmed, VARBINARY only from a byte[], long decimals encoded. */
  function WriteSlice(t: PrestoType, v: NativeValue): (r: Result<Cell, Fault>)
    requires JavaTypeOf(t) == SliceJ && !v.JNull?
  {
    match t
    case Varchar | Char(_) => if v.JString? then Ok(TextCell(v.s)) else Ok(NullCell)
    case Varbinary => if v.JBytes? then Ok(BytesCell(v.bytes)) else Ok(NullCell)
    case Decimal(_, _) => if v.JDecimal? then Ok(EncodedDecimalCell(v.unscaled)) else Ok(NullCell)
    case _ => Err(UnhandledType(t))
  }

  /**
   * `writeBlock`: an ARRAY column takes a java.sql.Array as one nested entry
   * whose elements go through `appendTo` with the element type; any other
   * object gives a null cell. When `getArray()` yields no array,
   * `Arrays.asList(null)` throws a NullPointerException.
   */
  function WriteBlock(env: Env, t: PrestoType, v: NativeValue): (r: Result<Cell, Fault>)
    requires JavaTypeOf(t) == BlockJ && !v.JNull?
    decreases v, 1, 0
    ensures r.Ok? ==> Fits(t, r.value)
    ensures r.Ok? && v.JArray? ==> r.value.ArrayCell?
    ensures r.Err? ==> CoercionFault(r.error)
  {
    match t
    case ArrayOf(e) =>
      if v.JArray? then
        match ArrayElements(v.contents)
        case None => Err(NullPointer)
        case Some(elements) =>
          match AppendElements(env, e, v, 0)
          case Ok(cells) => Ok(ArrayCell(cells))
          case Err(f) => Err(f)
      else Ok(NullCell)
    case _ => Err(UnhandledType(t))
  }

  /** The `forEach` over an array's elements, from index `i`; the first fault ends it. */
  function AppendElements(env: Env, e: PrestoType, v: NativeValue, i: nat): (r: Result<seq<Cell>, Fault>)
    requires v.JArray? && ArrayElements(v.contents).Some?
    requires i <= |ArrayElements(v.contents).value|
    decreases v, 0, |ArrayElements(v.contents).value| - i
    ensures r.Ok? ==> |r.value| == |ArrayElements(v.contents).value| - i
    ensures r.Ok? ==> forall k :: 0 <= k < |r.value| ==> Fits(e, r.value[k])
    ensures r.Err? ==> CoercionFault(r.error)
  {
    var elements := ArrayElements(v.contents).value;
    if i == |elements| then Ok([])
    else
      assert elements[i] in elements;
      match AppendTo(env, e, elements[i])
      case Err(f) => Err(f)
      case Ok(c) =>
        match AppendElements(env, e, v, i + 1)
        case Err(f) => Err(f)
        case Ok(rest) => Ok([c] + rest)
  }

  /** No part of the type (the type itself or an array's element type, recursively) lacks a rule. */
  predicate FullyMapped(t: PrestoType) {
    match t
    case ArrayOf(e) => FullyMapped(e)
    case _ => !Unmapped(t)
  }

  /** Every java.sql.Array inside the value yields an array from `getArray()`. */
  predicate ArraysWellShaped(v: NativeValue) {
    match v
    case JArray(o) =>
      (match o
       case ObjectArray(objects) => forall i :: 0 <= i < |objects| ==> ArraysWellShaped(objects[i])
       case PrimitiveArray(primitives) => forall i :: 0 <= i < |primitives| ==> ArraysWellShaped(primitives[i])
       case NotAnArray => false)
    case _ => true
  }

  /** Shifting any `long` instant by the default zone's offset stays within `long`. */
  predicate OffsetsNeverOverflow(env: Env) {
    forall m: Long :: LongMin <= m + env.zoneOffset(m) <= LongMax
  }

  /**
   * The only fatal outcomes are the designed ones: with every type mapped,
   * every array well shaped and no offset overflow, coercion never fails.
   */
  lemma {:induction false} AppendToTotal(env: Env, t: PrestoType, v: NativeValue)
    requires FullyMapped(t) && ArraysWellShaped(v) && OffsetsNeverOverflow(env)
    ensures AppendTo(env, t, v).Ok?
    decreases v, 2
  {
    if !v.JNull? && t.ArrayOf? && v.JArray? {
      AppendElementsTotal(env, t.element, v, 0);
    } else if !v.JNull? && t.Date? && v.JDate? {
      assert LongMin <= v.millis + env.zoneOffset(v.millis) <= LongMax;
    }
  }

  lemma {:induction false} AppendElementsTotal(env: Env, e: PrestoType, v: NativeValue, i: nat)
    requires FullyMapped(e) && ArraysWellShaped(v) && OffsetsNeverOverflow(env)
    requires v.JArray? && ArrayElements(v.contents).Some?
    requires i <= |ArrayElements(v.contents).value|
    ensures AppendElements(env, e, v, i).Ok?
    decreases v, 1, |ArrayElements(v.contents).value| - i
  {
    var elements := ArrayElements(v.contents).value;
    if i < |elements| {
      assert elements[i] in elements;
      assert ArraysWellShaped(elements[i]);
      AppendToTotal(env, e, elements[i]);
      AppendElementsTotal(env, e, v, i + 1);
    }
  }

  /**
   * An array value becomes one nested entry holding, in order, the cell of
   * each element the driver's array yields.
   */
  lemma {:induction false} ArrayEntryElementwise(env: Env, e: PrestoType, v: NativeValue, i: nat, k: nat)
    requires v.JArray? && ArrayElements(v.contents).Some?
    requires i <= k < |ArrayElements(v.contents).value|
    requires AppendElements(env, e, v, i).Ok?
    ensures var elements := ArrayElements(v.contents).value;
      AppendTo(env, e, elements[k]).Ok? && AppendElements(env, e, v, i).value[k - i] == AppendTo(env, e, elements[k]).value
    decreases k - i
  {
    AppendElementsStep(env, e, v, i);
    if i < k {
      ArrayEntryElementwise(env, e, v, i + 1, k);
    }
  }

  /** A completed array entry is the first element's cell followed by the cells of the rest. */
  lemma AppendElementsStep(env: Env, e: PrestoType, v: NativeValue, i: nat)
    requires v.JArray? && ArrayElements(v.contents).Some?
    requires i < |ArrayElements(v.contents).value|
    requires AppendElements(env, e, v, i).Ok?
    ensures var elements := ArrayElements(v.contents).value;
      && AppendTo(env, e, elements[i]).Ok?
      && AppendElements(env, e, v, i + 1).Ok?
      && AppendElements(env, e, v, i).value == [AppendTo(env, e, elements[i]).value] + AppendElements(env, e, v, i + 1).value
  {
  }

  /**
   * The numeric rules of the `long` branch, and the long-decimal rule of
   * `writeSlice`, for values of the expected class: INTEGER, SMALLINT and
   * TINYINT keep `intValue()`, the low 32 bits of the number.
   */
  lemma NumericConversions(env: Env, n: Long, m: Long, u: Long, p: nat, sc: nat)
    ensures IntMin <= n <= IntMax ==> forall t :: t in {Integer, Smallint, Tinyint} ==> AppendTo(env, t, JIntegral(n)) == Ok(LongCell(n))
    ensures forall t :: t in {Integer, Smallint, Tinyint} ==> AppendTo(env, t, JIntegral(n)) == Ok(LongCell(ToInt32(n)))
    ensures AppendTo(env, Bigint, JIntegral(n)) == Ok(LongCell(n))
    ensures AppendTo(env, Timestamp, JDate(m)) == Ok(LongCell(m))
    ensures p <= MaxShortPrecision ==> AppendTo(env, Decimal(p, sc), JDecimal(u, sc)) == Ok(LongCell(u))
    ensures p > MaxShortPrecision ==> AppendTo(env, Decimal(p, sc), JDecimal(u, sc)) == Ok(EncodedDecimalCell(u))
  {
  }

  /** Strings are written as they are, for CHAR too, and VARBINARY keeps the bytes. */
  lemma TextConversions(env: Env, p: nat, s: string, b: seq<Byte>)
    ensures AppendTo(env, Varchar, JString(s)) == Ok(TextCell(s))
    ensures AppendTo(env, Char(p), JString(s)) == Ok(TextCell(s))
    ensures AppendTo(env, Varbinary, JBytes(b)) == Ok(BytesCell(b))
  {
  }

  /** TIME keeps the instant's time of day on the UTC clock. */
  lemma TimeIsUtcMillisOfDay(env: Env, m: Long)
    ensures AppendTo(env, Time, JDate(m)).Ok?
    ensures var c := AppendTo(env, Time, JDate(m)).value;
      c.LongCell? && 0 <= c.v < MillisPerDay && (m - c.v) % MillisPerDay == 0
  {
  }

  /**
   * DATE: when the driver's instant is local midnight of day `d` (so shifting
   * it by the zone's offset gives UTC midnight of `d`), the cell is `d`,
   * whatever the default zone.
   */
  lemma {:induction false} DateOfLocalMidnight(env: Env, m: Long, d: int)
    requires m + env.zoneOffset(m) == d * MillisPerDay
    requires LongMin <= d * MillisPerDay <= LongMax
    ensures AppendTo(env, Date, JDate(m)) == Ok(LongCell(d))
  {
    var utc := m + env.zoneOffset(m);
    assert LongMin <= utc <= LongMax;
    if d >= 0 {
      assert utc / MillisPerDay == d;
    } else {
      assert (-utc) == (-d) * MillisPerDay;
      assert (-utc) / MillisPerDay == -d;
    }
  }

  /** 2024-03-01 is day 19783 since the epoch, in every zone. */
  lemma DateExample(env: Env, m: Long)
    requires m + env.zoneOffset(m) == 19783 * MillisPerDay
    ensures AppendTo(env, Date, JDate(m)) == Ok(LongCell(19783))
  {
    DateOfLocalMidnight(env, m, 19783);
  }

  /** 13:45:30.000 on any day is 49 530 000 milliseconds of day. */
  lemma TimeExample(env: Env, m: Long, day: int)
    requires m == day * MillisPerDay + 49_530_000
    ensures AppendTo(env, Time, JDate(m)) == Ok(LongCell(49_530_000))
  {
    assert m % MillisPerDay == 49_530_000;
  }

  /** The deliberate nulls: a non-byte[] for VARBINARY and a non-Array for an ARRAY column. */
  lemma MismatchIsNull(env: Env, e: PrestoType, v: NativeValue)
    ensures !v.JBytes? ==> AppendTo(env, Varbinary, v) == Ok(NullCell)
    ensures !v.JArray? ==> AppendTo(env, ArrayOf(e), v) == Ok(NullCell)
  {
  }

  /** A java.sql.Array whose `getArray()` is not an array aborts the read. */
  lemma NonArrayContentsIsFatal(env: Env, e: PrestoType)
    ensures AppendTo(env, ArrayOf(e), JArray(NotAnArray)) == Err(NullPointer)
  {
  }
}
