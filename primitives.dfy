/** Java's fixed-width integer types, as far as the model needs them. */
module Primitives {

  const TwoTo31: int := 0x8000_0000
  const TwoTo32: int := 0x1_0000_0000
  const TwoTo64: int := 0x1_0000_0000_0000_0000

  /** A Java `long` (ids of entities). */
  newtype Long = x: int | -0x8000_0000_0000_0000 <= x < 0x8000_0000_0000_0000

  predicate IsInt32(x: int) {
    -TwoTo31 <= x < TwoTo31
  }

  /** Two's-complement wrap-around of a Java `int` expression. */
  function WrapInt32(x: int): (r: int)
    ensures IsInt32(r)
    ensures IsInt32(x) ==> r == x
    ensures (r - x) % TwoTo32 == 0
  {
    (x + TwoTo31) % TwoTo32 - TwoTo31
  }

  /** The unsigned value of the 64 bits of a `long`. */
  function Unsigned64(v: Long): (u: nat)
    ensures u < TwoTo64
    ensures u % TwoTo64 == (v as int) % TwoTo64
  {
    if v < 0 then v as int + TwoTo64 else v as int
  }

  /** `Long.hashCode(v)`: `(int)(v ^ (v >>> 32))`, i.e. the low half XOR the high half. */
  function LongHashCode(v: Long): (r: int)
    ensures IsInt32(r)
  {
    var u := Unsigned64(v);
    var low := ((u % TwoTo32) as bv32 ^ (u / TwoTo32) as bv32) as int;
    if low >= TwoTo31 then low - TwoTo32 else low
  }
}
