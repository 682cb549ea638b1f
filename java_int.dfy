/**
 * Java's fixed-width integers as the header classes use them: `byte`
 * (signed 8-bit), `int` (signed 32-bit two's complement) and the
 * wrap-around of `int` arithmetic that `hashCode` relies on.
 */
module JavaInt {

  const TWO_31: int := 0x8000_0000
  const TWO_32: int := 0x1_0000_0000

  /** A Java `byte`. */
  type Int8 = x: int | -128 <= x < 128

  /** A Java `int`. */
  type Int32 = x: int | -0x8000_0000 <= x < 0x8000_0000

  /** `x` reduced to a Java `int`, as overflowing `int` arithmetic does. */
  function Wrap(x: int): (r: Int32)
    ensures (r - x) % TWO_32 == 0
    ensures -TWO_31 <= x < TWO_31 ==> r == x
  {
    var m := x % TWO_32;
    if m < TWO_31 then m else m - TWO_32
  }

  /** The 32-bit pattern of `x` read as an unsigned number. */
  function Unsigned(x: Int32): (r: nat)
    ensures r < TWO_32
    ensures (r - x) % TWO_32 == 0
    ensures x >= 0 ==> r == x
  {
    if x < 0 then x + TWO_32 else x
  }

  /** Two `int`s with the same 32-bit pattern are the same `int`. */
  lemma CongruentInt32Equal(a: Int32, b: Int32)
    requires (a - b) % TWO_32 == 0
    ensures a == b
  {
  }

  /** `Wrap` is determined by the residue of its argument modulo 2^32. */
  lemma WrapCongruent(x: int, y: int)
    requires (x - y) % TWO_32 == 0
    ensures Wrap(x) == Wrap(y)
  {
  }

  /** Multiples of 2^32 stay multiples when scaled by 31. */
  lemma MultipleScaled(a: int)
    requires a % TWO_32 == 0
    ensures (31 * a) % TWO_32 == 0
  {
  }

  /** The 32-bit pattern read back as an `int` is the `int` itself. */
  lemma WrapUnsigned(x: Int32)
    ensures Wrap(Unsigned(x)) == x
  {
  }

  /** Every unsigned 32-bit value is the pattern of exactly one `int`. */
  lemma UnsignedWrap(u: nat)
    requires u < TWO_32
    ensures Unsigned(Wrap(u)) == u
  {
  }

  /** One step `31 * result + x` of Java's standard `hashCode` recipe. */
  function HashStep(result: Int32, x: Int32): (r: Int32)
    ensures (r - (31 * result + x)) % TWO_32 == 0
  {
    Wrap(31 * result + x)
  }

  /**
   * Wrapping the accumulator between steps changes nothing: the running
   * hash equals the wrapped value of the exact polynomial.
   */
  lemma HashStepWrap(acc: int, x: int)
    ensures Wrap(31 * Wrap(acc) + x) == Wrap(31 * acc + x)
  {
    var w := Wrap(acc);
    MultipleScaled(w - acc);
    assert (31 * w + x) - (31 * acc + x) == 31 * (w - acc);
    WrapCongruent(31 * w + x, 31 * acc + x);
  }
}
