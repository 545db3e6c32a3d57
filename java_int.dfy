/** Java's 32-bit `int`, with the wrap-around of `++` and `--`. */
module JavaInt {

  /** A Java `int`: a 32-bit two's-complement integer. */
  newtype int32 = x: int | -0x8000_0000 <= x < 0x8000_0000

  const MinInt: int32 := -0x8000_0000
  const MaxInt: int32 := 0x7fff_ffff

  /** `x++` on an `int`: one more, except that MaxInt wraps to MinInt. */
  function Inc(x: int32): int32 {
    if x == MaxInt then MinInt else x + 1
  }

  /** `x--` on an `int`: one less, except that MinInt wraps to MaxInt. */
  function Dec(x: int32): int32 {
    if x == MinInt then MaxInt else x - 1
  }

  /** A decrement followed by an increment gives back the count, wrap-around included. */
  lemma IncUndoesDec(x: int32)
    ensures Inc(Dec(x)) == x
    ensures Dec(Inc(x)) == x
  {
  }
}
