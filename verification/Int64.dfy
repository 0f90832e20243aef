/** The range of 64-bit signed integers. */
module Int64 {
  const TWO_63 := 0x8000_0000_0000_0000

  predicate Fits(n: int) {
    -TWO_63 <= n < TWO_63
  }
}
