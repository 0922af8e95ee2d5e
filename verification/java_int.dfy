/**
 Java's 32-bit signed `int`. The counter service stores its values in Java
 `int` fields, so `value++` silently wraps from the largest value to the
 smallest one. Dafny integers are unbounded, so that wrap-around is written
 out here once and used by every operation that increments.
 */
module JavaInt {

  const MinInt: int := -0x8000_0000
  const MaxInt: int := 0x7fff_ffff
  const Modulus: int := 0x1_0000_0000

  newtype Int32 = x: int | -0x8000_0000 <= x <= 0x7fff_ffff

  /** Two's-complement truncation of an unbounded integer to 32 bits. */
  function Wrap(x: int): (r: Int32)
    ensures (r as int - x) % Modulus == 0
    ensures MinInt <= x <= MaxInt ==> r as int == x
  {
    var m := (x - MinInt) % Modulus;
    assert x - MinInt == ((x - MinInt) / Modulus) * Modulus + m;
    (m + MinInt) as Int32
  }

  /** The value Java's `v++` leaves behind: one more, except that the largest value wraps to the smallest. */
  function Inc(v: Int32): (r: Int32)
    ensures v as int < MaxInt ==> r as int == v as int + 1
    ensures v as int == MaxInt ==> r as int == MinInt
  {
    Wrap(v as int + 1)
  }
}
