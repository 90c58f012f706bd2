/** Machine words: bytes, 32-bit truncation, 64-bit times, powers of two. */
module Words {
  type Byte = x: int | 0 <= x < 256
  type Word32 = x: int | 0 <= x < 0x1_0000_0000

  const U64_MOD: int := 0x1_0000_0000_0000_0000

  /** Conversion of an unbounded value to `uint32_t`. */
  function Wrap32(x: int): Word32 { x % 0x1_0000_0000 }

  /** `uint64_t` subtraction of times. */
  function Elapsed(nowMs: nat, thenMs: nat): int {
    if nowMs >= thenMs then nowMs - thenMs else nowMs - thenMs + U64_MOD
  }

  function Pow2(k: nat): (p: nat)
    ensures p > 0
  {
    if k == 0 then 1 else 2 * Pow2(k - 1)
  }

  /** Bit k of a number. */
  predicate Bit(x: nat, k: nat) {
    if k == 0 then x % 2 == 1 else Bit(x / 2, k - 1)
  }
}
