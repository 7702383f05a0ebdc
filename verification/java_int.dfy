/** Java's 32-bit `int` and its wrap-around arithmetic. */
module JavaInt {

  const TWO_32: int := 0x1_0000_0000
  const MIN_INT: int := -0x8000_0000
  const MAX_INT: int := 0x7fff_ffff

  /** The values a Java `int` can hold. */
  type Int32 = x: int | MIN_INT <= x <= MAX_INT

  /** The `int` a Java expression yields when its exact value is `x`:
      the one representable value congruent to `x` modulo 2^32. */
  function Wrap(x: int): (r: Int32)
    ensures (x - r) % TWO_32 == 0
    ensures MIN_INT <= x <= MAX_INT ==> r == x
  {
    (x - MIN_INT) % TWO_32 + MIN_INT
  }

  /** Wrapping only depends on the residue modulo 2^32. */
  lemma WrapCongruent(x: int, y: int)
    requires (x - y) % TWO_32 == 0
    ensures Wrap(x) == Wrap(y)
  {
    var k := (x - y) / TWO_32;
    assert x == y + k * TWO_32;
    assert (x - MIN_INT) % TWO_32 == (y - MIN_INT) % TWO_32;
  }

  /** Thirty-one times a multiple of 2^32 is one too. */
  lemma ScaleMultiple(d: int)
    requires d % TWO_32 == 0
    ensures (31 * d) % TWO_32 == 0
  {
    var q := d / TWO_32;
    assert d == q * TWO_32;
    assert 31 * d == (31 * q) * TWO_32;
  }

  /** One step of Java's `31 * h + e` loop may wrap early or late: the
      result is the same as wrapping the exact value once at the end. */
  lemma WrapStep(x: int, e: int)
    ensures Wrap(31 * Wrap(x) + e) == Wrap(31 * x + e)
  {
    var w := Wrap(x);
    ScaleMultiple(x - w);
    assert (31 * x + e) - (31 * w + e) == 31 * (x - w);
    WrapCongruent(31 * x + e, 31 * w + e);
  }
}
