/**
 * The parts of the Java language the model needs: 32- and 64-bit two's-complement
 * integers with their wrap-around, the exceptions the modelled code throws, and
 * a result type that carries either a value or a thrown exception.
 */
module JavaLang {

  const TWO_32: int := 0x1_0000_0000
  const MIN_INT: int := -0x8000_0000
  const MAX_INT: int := 0x7FFF_FFFF

  const TWO_64: int := 0x1_0000_0000_0000_0000
  const MIN_LONG: int := -0x8000_0000_0000_0000
  const MAX_LONG: int := 0x7FFF_FFFF_FFFF_FFFF

  /** A Java `int`. */
  type int32 = x: int | -0x8000_0000 <= x < 0x8000_0000

  /** A Java `long`. */
  type int64 = x: int | -0x8000_0000_0000_0000 <= x < 0x8000_0000_0000_0000

  /** The exceptions thrown by the modelled code. */
  datatype Exception = IllegalArgument | UnsupportedOperation | AssertionError

  /** What a Java call that may throw comes back with. */
  datatype Result<+T> = Ok(value: T) | Throw(error: Exception)

  /** A Java reference that may be `null`. */
  datatype Option<+T> = None | Some(value: T)

  /**
   * The `int` that Java's arithmetic yields for the exact value `x`: the one
   * value of the `int` range congruent to `x` modulo 2^32.
   */
  function Wrap32(x: int): (r: int32)
    ensures (r - x) % TWO_32 == 0
    ensures MIN_INT <= x <= MAX_INT ==> r == x
  {
    (x - MIN_INT) % TWO_32 + MIN_INT
  }

  /** The `long` that Java's arithmetic yields for the exact value `x`. */
  function Wrap64(x: int): (r: int64)
    ensures (r - x) % TWO_64 == 0
    ensures MIN_LONG <= x <= MAX_LONG ==> r == x
  {
    (x - MIN_LONG) % TWO_64 + MIN_LONG
  }

  /** Two `int` values congruent modulo 2^32 are the same value. */
  lemma Wrap32Unique(x: int, y: int32)
    requires (y - x) % TWO_32 == 0
    ensures Wrap32(x) == y
  {
    var w := Wrap32(x);
    var k := (w - x) / TWO_32;
    var j := (y - x) / TWO_32;
    assert w - x == k * TWO_32;
    assert y - x == j * TWO_32;
    assert w - y == (k - j) * TWO_32;
  }

  /** Values that differ by a multiple of 2^32 wrap to the same `int`. */
  lemma Wrap32Congruent(a: int, b: int, m: int)
    requires a - b == m * TWO_32
    ensures Wrap32(a) == Wrap32(b)
  {
    var w := Wrap32(b);
    var j := (w - b) / TWO_32;
    assert w - b == j * TWO_32;
    assert w - a == (j - m) * TWO_32;
    assert (w - a) % TWO_32 == 0;
    Wrap32Unique(a, w);
  }

  /** Java `int` subtraction is subtraction modulo 2^32: wrapping an operand first changes nothing. */
  lemma Wrap32Sub(a: int, b: int)
    ensures Wrap32(Wrap32(a) - b) == Wrap32(a - b)
    ensures Wrap32(a - Wrap32(b)) == Wrap32(a - b)
  {
    var wa := Wrap32(a);
    var ka := (wa - a) / TWO_32;
    assert wa - a == ka * TWO_32;
    Wrap32Congruent(wa - b, a - b, ka);
    var wb := Wrap32(b);
    var kb := (wb - b) / TWO_32;
    assert wb - b == kb * TWO_32;
    Wrap32Congruent(a - wb, a - b, -kb);
  }
}
