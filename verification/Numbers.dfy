/** Kinds of numbers that several components need. */
module Numbers {
  newtype Byte = x: int | 0 <= x < 256

  predicate IsWhole(r: real) {
    r.Floor as real == r
  }
}
