/** Java's 32-bit `int` and the narrowing cast from `long`. */
module JavaInt {

  const Int32Min: int := -0x8000_0000
  const Int32Max: int := 0x7fff_ffff
  const TwoTo32: int := 0x1_0000_0000

  predicate IsInt32(x: int) {
    Int32Min <= x <= Int32Max
  }

  /** `(int) x`: keeps the low 32 bits of `x` and reads them in two's complement,
      that is, the one int that is congruent to `x` modulo 2^32. An `int` addition
      that overflows, such as `segmentsToMap++`, wraps the same way. */
  function ToInt32(x: int): (r: int)
    ensures IsInt32(r)
    ensures (x - r) % TwoTo32 == 0
    ensures IsInt32(x) ==> r == x
  {
    var m := x % TwoTo32;
    if m > Int32Max then m - TwoTo32 else m
  }
}
