/** Java's fixed-width integer and byte types, written out over unbounded integers. */
module JavaInt {

  const MinInt32: int := -0x8000_0000
  const MaxInt32: int := 0x7FFF_FFFF
  const TwoTo32: int := 0x1_0000_0000

  /** A Java `int` (and a C `int` on the native side). */
  type int32 = x: int | MinInt32 <= x <= MaxInt32

  /** One byte of a message payload or of a direct buffer. */
  type byte = bv8

  /** The unsigned reading of an `int`'s 32 bits (`Integer.toUnsignedLong`). */
  function ToUnsigned(x: int32): (u: nat)
    ensures u < TwoTo32
    ensures x >= 0 ==> u == x
    ensures x < 0 ==> u == x + TwoTo32
  {
    if x < 0 then x + TwoTo32 else x
  }

  /** Java's unary `-` on an `int`: it wraps, so the most negative `int` is its own negation. */
  function Negate(x: int32): (r: int32)
    ensures (r + x) % TwoTo32 == 0
    ensures x > MinInt32 ==> r == -x
  {
    if x == MinInt32 then MinInt32 else -x
  }

  /** Two different `int`s never share their 32 bits. */
  lemma ToUnsignedInjective(x: int32, y: int32)
    ensures ToUnsigned(x) == ToUnsigned(y) ==> x == y
  {
  }
}
