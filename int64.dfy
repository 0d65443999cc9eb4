/** Go's 64-bit signed integers (`int` on 64-bit targets and `time.Duration`). */
module Int64 {
  const MinInt64: int := -0x8000_0000_0000_0000
  const MaxInt64: int := 0x7fff_ffff_ffff_ffff
  const Modulus: int := 0x1_0000_0000_0000_0000

  predicate InRange(x: int) {
    MinInt64 <= x <= MaxInt64
  }

  /** Two's-complement wrap-around of an int64 product or sum. */
  function Wrap(x: int): (r: int)
    ensures InRange(r)
    ensures InRange(x) ==> r == x
  {
    (x - MinInt64) % Modulus + MinInt64
  }
}
