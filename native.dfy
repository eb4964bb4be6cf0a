/**
 * Machine integers of the Rust source: `usize` (taken to be 64 bits wide)
 * and the `as i64` conversion applied to it.
 */
module Native {

  /** Rust's `usize` on a 64-bit target. */
  type Usize = n: nat | n < 0x1_0000_0000_0000_0000

  /**
   * `n as i64` for an unsigned 64-bit `n`: the bit pattern is kept and read
   * as two's complement, so values of 2^63 and above become negative.
   */
  function UsizeAsI64(n: Usize): (r: int)
    ensures -0x8000_0000_0000_0000 <= r < 0x8000_0000_0000_0000
    ensures (n - r) % 0x1_0000_0000_0000_0000 == 0
    ensures n < 0x8000_0000_0000_0000 ==> r == n
    ensures n >= 0x8000_0000_0000_0000 ==> r < 0
  {
    if n < 0x8000_0000_0000_0000 then n else n - 0x1_0000_0000_0000_0000
  }
}
