/** The byte type shared by the bus, the sector store and the file names. */
module Bytes {
  type byte = b: int | 0 <= b < 0x100

  /** `1 << n` */
  function PowerOfTwo(n: nat): (p: nat)
    ensures p > 0
  {
    if n == 0 then 1 else 2 * PowerOfTwo(n - 1)
  }
}
