/**
 * Shared vocabulary: Option/Result wrappers and the Java integer widths the
 * connector relies on (32-bit `int`, 64-bit `long`, truncating division).
 */
module Common {

  datatype Option<+T> = None | Some(value: T)

  datatype Result<+T, +E> = Ok(value: T) | Err(error: E)

  const IntMin: int := -0x8000_0000
  const IntMax: int := 0x7fff_ffff
  const LongMin: int := -0x8000_0000_0000_0000
  const LongMax: int := 0x7fff_ffff_ffff_ffff

  /** A value of Java's `int`. */
  type Int32 = x: int | IntMin <= x <= IntMax

  /** A value of Java's `long`. */
  type Long = x: int | LongMin <= x <= LongMax

  /** Two's-complement narrowing modulo `m`, as a Java cast `(int) x` or `(byte) x` does. */
  function Wrap(x: int, m: nat): (r: int)
    requires m > 0 && m % 2 == 0
    ensures -(m / 2) <= r < m / 2
    ensures -(m / 2) <= x < m / 2 ==> r == x
    ensures (r - x) % m == 0
  {
    var low := x % m;
    assert (low - x) % m == 0 by { DivMulMod(x, m); }
    assert (low - m - x) % m == 0 by { DivMulMod(x, m); StepDown(low - x, m); }
    assert -(m / 2) <= x < m / 2 ==> low == if x >= 0 then x else x + m by {
      if -(m / 2) <= x < m / 2 { ModOfSmall(x, m); }
    }
    if low < m / 2 then low else low - m
  }

  lemma DivMulMod(x: int, m: int)
    requires m > 0
    ensures (x % m - x) % m == 0
  {
    var q := x / m;
    assert x % m - x == (-q) * m;
    MultipleMod(-q, m);
  }

  lemma MultipleMod(q: int, m: int)
    requires m > 0
    ensures (q * m) % m == 0
  {
    var d, r := (q * m) / m, (q * m) % m;
    assert (q - d) * m == r;
    if q - d >= 1 {
      MulAtLeast(q - d, m);
      assert false;
    } else if q - d <= -1 {
      MulAtLeast(d - q, m);
      assert false;
    }
  }

  lemma MulAtLeast(k: int, m: int)
    requires k >= 1 && m > 0
    ensures k * m >= m
  {
    assert k * m == (k - 1) * m + m;
  }

  lemma StepDown(d: int, m: int)
    requires m > 0 && d % m == 0
    ensures (d - m) % m == 0
  {
    var q := d / m;
    assert d == q * m;
    assert d - m == (q - 1) * m;
    MultipleMod(q - 1, m);
  }

  lemma ModOfSmall(x: int, m: int)
    requires m > 0 && -m <= x < m
    ensures x >= 0 ==> x % m == x
    ensures x < 0 ==> x % m == x + m
  {
    if x >= 0 {
      assert x == 0 * m + x;
    } else {
      assert x == (-1) * m + (x + m);
    }
  }

  /** `(int) x` of a Java `long`, or `Number.intValue()` of an integral box. */
  function ToInt32(x: int): (r: Int32)
    ensures IntMin <= r <= IntMax
    ensures IntMin <= x <= IntMax ==> r == x
    ensures (r - x) % 0x1_0000_0000 == 0
  {
    Wrap(x, 0x1_0000_0000)
  }

  /** `(short) x`, as `Number.shortValue()` of an integral box. */
  function ToInt16(x: int): (r: int)
    ensures -0x8000 <= r < 0x8000
    ensures -0x8000 <= x < 0x8000 ==> r == x
    ensures (r - x) % 0x1_0000 == 0
  {
    Wrap(x, 0x1_0000)
  }

  /** `(byte) x`, as `Number.byteValue()` of an integral box. */
  function ToInt8(x: int): (r: int)
    ensures -0x80 <= r < 0x80
    ensures -0x80 <= x < 0x80 ==> r == x
    ensures (r - x) % 0x100 == 0
  {
    Wrap(x, 0x100)
  }

  /** The low 64 bits of an integer, as `BigInteger.longValue()` keeps them. */
  function ToLong(x: int): (r: Long)
    ensures LongMin <= r <= LongMax
    ensures LongMin <= x <= LongMax ==> r == x
    ensures (r - x) % 0x1_0000_0000_0000_0000 == 0
  {
    Wrap(x, 0x1_0000_0000_0000_0000)
  }

  /** Saturating narrowing of a floating value's integral part, as Java's `(long) d` and `(int) d`. */
  function Saturate(x: int, lo: int, hi: int): (r: int)
    requires lo <= hi
    ensures lo <= r <= hi
    ensures lo <= x <= hi ==> r == x
  {
    if x < lo then lo else if x > hi then hi else x
  }

  /** Java's integer division, which truncates toward zero. */
  function JavaDiv(a: int, b: int): (q: int)
    requires b > 0
    ensures a >= 0 ==> q == a / b
    ensures a < 0 ==> q == -((-a) / b)
  {
    if a >= 0 then a / b else -((-a) / b)
  }
}
