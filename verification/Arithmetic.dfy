/** The numbers that several components share. */
module Arithmetic {
  /** Unsigned 32-bit numbers wrap around here. */
  const TWO_32 := 0x1_0000_0000

  function Pow2(j: nat): (p: nat)
    ensures p > 0
  {
    if j == 0 then 1 else 2 * Pow2(j - 1)
  }
}
