/** Octets, as Python's `bytes` holds them, and their 6-bit digits. */
module Bytes {
  newtype byte = x: int | 0 <= x < 256

  /** Splitting a number into its last 6-bit digit and the rest. */
  lemma DivMod64(x: int, q: int, r: int)
    requires 0 <= r < 64 && x == q * 64 + r
    ensures x / 64 == q && x % 64 == r
  {
  }
}
